/** The header package: RequestHeader and ResponseHeader, their binary layout
    (Marshall), their decoder (Unmarshall), and their reset for reuse.

    Request:  [u16 LE tag][uvarint len + method][uvarint ID][uvarint RequestLen][u32 LE checksum]
    Response: [u16 LE tag][uvarint ID][uvarint len + error][uvarint ResponseLen][u32 LE checksum]

    Unmarshall assigns the fields one after the other and turns any
    out-of-range slice into UnmarshalError (a recovered panic), so a failed
    decode leaves the fields assigned before the failing read in place. It
    does not look at the size binary.Uvarint reports: an incomplete varint
    reads as 0 and consumes nothing, an overflowing one moves the cursor back. */
module Header {
  import opened Errors
  import opened Binary
  import opened Compressor

  /** The size of the buffer Marshall allocates, on top of the string. */
  const MaxHeaderSize: nat := 2 + 10 + 10 + 10 + 4
  const Uint32Size: nat := 4
  const Uint16Size: nat := 2

  datatype RequestFields = RequestFields(
    compressType: CompressType, serviceMethod: seq<byte>, id: u64, requestLen: u32, checksum: u32)

  datatype ResponseFields = ResponseFields(
    compressType: CompressType, id: u64, error: seq<byte>, responseLen: u32, checksum: u32)

  /** The zero values: what `&RequestHeader{}` and `&ResponseHeader{}` hold. */
  const ZeroRequest: RequestFields := RequestFields(0, [], 0, 0, 0)
  const ZeroResponse: ResponseFields := ResponseFields(0, 0, [], 0, 0)

  /** The fields after a decode, and its error. */
  datatype Decoded<H> = Decoded(header: H, err: Option<Error>)

  /* ---------------------------------------------------------------------- */
  /* Strings: writeString / readString                                       */
  /* ---------------------------------------------------------------------- */

  /** The bytes writeString stores: the uvarint length, then the string. */
  function StringBytes(s: seq<byte>): seq<byte> {
    UvarintBytes(|s|) + s
  }

  /** readString(data): the string and the number of bytes it took, or None
      where the slice `data[idx : idx+length]` is out of range (a panic). */
  function ReadString(data: seq<byte>): (r: Option<(seq<byte>, nat)>)
    ensures r.Some? ==> r.value.1 <= |data| && |r.value.0| <= r.value.1
  {
    var (length, size) := Uvarint(data);
    if size < 0 || length > |data| - size then None
    else Some((data[size..size + length], size + length))
  }

  /** readString(writeString(s) ++ rest) gives s and the number of bytes
      writeString wrote. */
  lemma ReadStringRoundTrip(s: seq<byte>, rest: seq<byte>)
    requires IsGoString(s)
    ensures ReadString(StringBytes(s) + rest) == Some((s, |StringBytes(s)|))
  {
    var n := |UvarintBytes(|s|)|;
    var data := StringBytes(s) + rest;
    assert data == UvarintBytes(|s|) + (s + rest);
    UvarintRoundTrip(|s|, s + rest);
    assert data[n..n + |s|] == s;
  }

  /** The same read at a cursor: the cursor then stands after the string. */
  lemma ReadStringAt(data: seq<byte>, idx: nat, s: seq<byte>, rest: seq<byte>)
    requires IsGoString(s) && idx <= |data| && data[idx..] == StringBytes(s) + rest
    ensures ReadString(data[idx..]) == Some((s, |StringBytes(s)|))
    ensures idx + |StringBytes(s)| <= |data| && data[idx + |StringBytes(s)|..] == rest
  {
    ReadStringRoundTrip(s, rest);
    assert data[idx..][|StringBytes(s)|..] == rest;
  }

  /** writeString(data[off:], str): the uvarint length, then copy(), which
      copies as many bytes as fit. */
  method WriteString(data: array<byte>, off: nat, str: seq<byte>) returns (n: nat)
    requires IsGoString(str) && off + |UvarintBytes(|str|)| <= data.Length
    modifies data
    ensures n == |UvarintBytes(|str|)| + Min(|str|, data.Length - off - |UvarintBytes(|str|)|)
    ensures data[..off + n] == old(data[..off]) + StringBytes(str)[..n]
    ensures data[off + n..] == old(data[off + n..])
    ensures off + |StringBytes(str)| <= data.Length ==> n == |StringBytes(str)|
  {
    var idx := PutUvarint(data, off, |str|);
    ghost var mid := data[off + idx..];
    var m := Copy(data, off + idx, str);
    n := idx + m;
    assert StringBytes(str)[..n] == UvarintBytes(|str|) + str[..m];
    assert old(data[off + n..]) == old(data[off + idx..])[m..] == mid[m..];
  }

  /** The encodings of the fields of the header test's vectors, one by one. */
  lemma VectorFields()
    ensures LE16(0) == [0x00, 0x00]
    ensures UvarintBytes(12455) == [0xa7, 0x61]
    ensures StringBytes([0x65, 0x72, 0x72, 0x6f, 0x72]) == [0x05, 0x65, 0x72, 0x72, 0x6f, 0x72]
    ensures UvarintBytes(266) == [0x8a, 0x02]
    ensures LE32(3845236589) == [0x6d, 0xa7, 0x31, 0xe5]
  {
    assert UvarintBytes(12455) == [0xa7, 0x61];
    assert UvarintBytes(266) == [0x8a, 0x02];
    assert 3845236589 / 0x100 == 0xe531a7 && 3845236589 / 0x1_0000 == 0xe531;
  }

  /** A string and two uvarints, with the tag and the checksum, fit in
      MaxHeaderSize bytes beyond the string's own length. */
  lemma FieldsFit(s: seq<byte>, a: u64, b: u64)
    requires IsGoString(s)
    ensures Uint16Size + |StringBytes(s)| + |UvarintBytes(a)| + |UvarintBytes(b)| + Uint32Size
         <= MaxHeaderSize + |s|
  {
    UvarintFits(|s|);
    UvarintFits(a);
    UvarintFits(b);
  }

  /* ---------------------------------------------------------------------- */
  /* Request header                                                          */
  /* ---------------------------------------------------------------------- */

  /** The fields of the request layout, in wire order.  The length is any
      uint64 here, so that decoding can be stated for lengths Marshall never
      writes. */
  function RequestLayout(t: CompressType, m: seq<byte>, id: u64, len: u64, c: u32): seq<seq<byte>> {
    [LE16(t), StringBytes(m), UvarintBytes(id), UvarintBytes(len), LE32(c)]
  }

  /** The bytes RequestHeader.Marshall returns. */
  function RequestBytes(h: RequestFields): seq<byte> {
    Concat(RequestLayout(h.compressType, h.serviceMethod, h.id, h.requestLen, h.checksum))
  }

  /** The encoding fits the buffer Marshall allocates. */
  lemma RequestBytesFit(h: RequestFields)
    requires IsGoString(h.serviceMethod)
    ensures |RequestBytes(h)| <= MaxHeaderSize + |h.serviceMethod|
  {
    RequestOffsets(h.compressType, h.serviceMethod, h.id, h.requestLen, h.checksum);
    FieldsFit(h.serviceMethod, h.id, h.requestLen);
  }

  /** RequestHeader.Unmarshall(data) applied to a header whose fields were
      `prev`: the fields afterwards and the error.  The stages below follow
      the cursor idx through the layout. */
  function DecodeRequest(prev: RequestFields, data: seq<byte>): (r: Decoded<RequestFields>)
    ensures r.err.Some? ==> r.err == Some(UnmarshalError)
  {
    if |data| == 0 then Decoded(prev, Some(UnmarshalError))
    else if |data| < Uint16Size then Decoded(prev, Some(UnmarshalError))
    else RequestMethodAt(prev.(compressType := Uint16(data)), data, Uint16Size)
  }

  /** Reads the method name at idx. */
  function RequestMethodAt(h: RequestFields, data: seq<byte>, idx: nat): (r: Decoded<RequestFields>)
    requires idx <= |data|
    ensures r.err.Some? ==> r.err == Some(UnmarshalError)
  {
    match ReadString(data[idx..])
    case None => Decoded(h, Some(UnmarshalError))
    case Some(s) => RequestIDAt(h.(serviceMethod := s.0), data, idx + s.1)
  }

  /** Reads the ID at idx; an overflowing varint moves the cursor back, and
      before the start of data the next slice panics. */
  function RequestIDAt(h: RequestFields, data: seq<byte>, idx: nat): (r: Decoded<RequestFields>)
    requires idx <= |data|
    ensures r.err.Some? ==> r.err == Some(UnmarshalError)
  {
    var (id, n) := Uvarint(data[idx..]);
    if idx + n < 0 then Decoded(h.(id := id), Some(UnmarshalError))
    else RequestLenAt(h.(id := id), data, idx + n)
  }

  /** Reads the body length at idx, keeping its low 32 bits. */
  function RequestLenAt(h: RequestFields, data: seq<byte>, idx: nat): (r: Decoded<RequestFields>)
    requires idx <= |data|
    ensures r.err.Some? ==> r.err == Some(UnmarshalError)
  {
    var (len, n) := Uvarint(data[idx..]);
    RequestChecksumAt(h.(requestLen := Truncate32(len)), data, idx + n)
  }

  /** Reads the checksum at idx, if four bytes are left there. */
  function RequestChecksumAt(h: RequestFields, data: seq<byte>, idx: int): (r: Decoded<RequestFields>)
    ensures r.err.Some? ==> r.err == Some(UnmarshalError)
  {
    if idx < 0 || |data| - idx < Uint32Size then Decoded(h, Some(UnmarshalError))
    else Decoded(h.(checksum := Uint32(data[idx..])), None)
  }

  /* One lemma per stage: what the stage yields once the field it reads is known. */

  lemma RequestMethodStep(h: RequestFields, data: seq<byte>, idx: nat, m: seq<byte>, n: nat, x: Decoded<RequestFields>)
    requires idx + n <= |data| && ReadString(data[idx..]) == Some((m, n))
    requires RequestIDAt(h.(serviceMethod := m), data, idx + n) == x
    ensures RequestMethodAt(h, data, idx) == x
  {
  }

  lemma RequestIDStep(h: RequestFields, data: seq<byte>, idx: nat, id: u64, n: nat, x: Decoded<RequestFields>)
    requires idx + n <= |data| && Uvarint(data[idx..]) == (id, n)
    requires RequestLenAt(h.(id := id), data, idx + n) == x
    ensures RequestIDAt(h, data, idx) == x
  {
  }

  lemma RequestLenStep(h: RequestFields, data: seq<byte>, idx: nat, len: u64, n: nat, c: u32)
    requires idx + n + Uint32Size <= |data| && Uvarint(data[idx..]) == (len, n) && Uint32(data[idx + n..]) == c
    ensures RequestLenAt(h, data, idx) == Decoded(h.(requestLen := Truncate32(len), checksum := c), None)
  {
  }

  /** Where each field decodes at its cursor, the decoder returns those fields. */
  lemma DecodeRequestFields(prev: RequestFields, data: seq<byte>, t: CompressType, m: seq<byte>, id: u64,
                            len: u64, c: u32, n1: nat, n2: nat, n3: nat)
    requires Uint16Size <= |data| && Uint16(data) == t
    requires Uint16Size + n1 <= |data| && ReadString(data[Uint16Size..]) == Some((m, n1))
    requires Uint16Size + n1 + n2 <= |data| && Uvarint(data[Uint16Size + n1..]) == (id, n2)
    requires Uint16Size + n1 + n2 + n3 + Uint32Size <= |data|
    requires Uvarint(data[Uint16Size + n1 + n2..]) == (len, n3)
    requires Uint32(data[Uint16Size + n1 + n2 + n3..]) == c
    ensures DecodeRequest(prev, data) == Decoded(RequestFields(t, m, id, Truncate32(len), c), None)
  {
    var h1 := prev.(compressType := t);
    var h2 := h1.(serviceMethod := m);
    var h3 := h2.(id := id);
    RequestLenStep(h3, data, Uint16Size + n1 + n2, len, n3, c);
    RequestIDStep(h2, data, Uint16Size + n1, id, n2, RequestLenAt(h3, data, Uint16Size + n1 + n2));
    RequestMethodStep(h1, data, Uint16Size, m, n1, RequestIDAt(h2, data, Uint16Size + n1));
  }

  /* Where each field of the layout starts, and what reads it back there. */

  lemma RequestOffsets(t: CompressType, m: seq<byte>, id: u64, len: u64, c: u32)
    ensures var f := RequestLayout(t, m, id, len, c);
      && |Concat(f[..1])| == Uint16Size
      && |Concat(f[..2])| == Uint16Size + |StringBytes(m)|
      && |Concat(f[..3])| == Uint16Size + |StringBytes(m)| + |UvarintBytes(id)|
      && |Concat(f[..4])| == Uint16Size + |StringBytes(m)| + |UvarintBytes(id)| + |UvarintBytes(len)|
      && |Concat(f)| == Uint16Size + |StringBytes(m)| + |UvarintBytes(id)| + |UvarintBytes(len)| + Uint32Size
  {
    var f := RequestLayout(t, m, id, len, c);
    assert f[..0] == [];
    ConcatPrefix(f, 0);
    ConcatPrefix(f, 1);
    ConcatPrefix(f, 2);
    ConcatPrefix(f, 3);
    ConcatPrefix(f, 4);
    assert f[..5] == f;
  }

  /** The layout as the five fields appended in order. */
  lemma RequestFlat(t: CompressType, m: seq<byte>, id: u64, len: u64, c: u32)
    ensures Concat(RequestLayout(t, m, id, len, c))
         == [] + LE16(t) + StringBytes(m) + UvarintBytes(id) + UvarintBytes(len) + LE32(c)
  {
    var f := RequestLayout(t, m, id, len, c);
    assert f[..0] == [];
    ConcatPrefix(f, 0);
    ConcatPrefix(f, 1);
    ConcatPrefix(f, 2);
    ConcatPrefix(f, 3);
    ConcatPrefix(f, 4);
    assert f[..5] == f;
  }

  lemma RequestTagField(t: CompressType, m: seq<byte>, id: u64, len: u64, c: u32)
    ensures Uint16Size <= |Concat(RequestLayout(t, m, id, len, c))|
    ensures Uint16(Concat(RequestLayout(t, m, id, len, c))) == t
  {
    var f := RequestLayout(t, m, id, len, c);
    ConcatAt(f, 0);
    assert f[0..] == f;
    LE16RoundTrip(t, Concat(f[1..]));
  }

  lemma RequestMethodField(data: seq<byte>, t: CompressType, m: seq<byte>, id: u64, len: u64, c: u32, n: nat)
    requires IsGoString(m) && data == Concat(RequestLayout(t, m, id, len, c)) && n == |StringBytes(m)|
    ensures Uint16Size + n <= |data| && ReadString(data[Uint16Size..]) == Some((m, n))
  {
    var f := RequestLayout(t, m, id, len, c);
    RequestOffsets(t, m, id, len, c);
    ConcatField(f, 1);
    ReadStringAt(Concat(f), Uint16Size, m, Concat(f[2..]));
  }

  lemma RequestIDField(data: seq<byte>, t: CompressType, m: seq<byte>, id: u64, len: u64, c: u32, i: nat, n: nat)
    requires data == Concat(RequestLayout(t, m, id, len, c))
    requires i == Uint16Size + |StringBytes(m)| && n == |UvarintBytes(id)|
    ensures i + n <= |data| && Uvarint(data[i..]) == (id, n)
  {
    var f := RequestLayout(t, m, id, len, c);
    RequestOffsets(t, m, id, len, c);
    ConcatField(f, 2);
    UvarintAt(Concat(f), Uint16Size + |StringBytes(m)|, id, Concat(f[3..]));
  }

  lemma RequestLenField(data: seq<byte>, t: CompressType, m: seq<byte>, id: u64, len: u64, c: u32, i: nat, n: nat)
    requires data == Concat(RequestLayout(t, m, id, len, c))
    requires i == Uint16Size + |StringBytes(m)| + |UvarintBytes(id)| && n == |UvarintBytes(len)|
    ensures i + n <= |data| && Uvarint(data[i..]) == (len, n)
  {
    var f := RequestLayout(t, m, id, len, c);
    RequestOffsets(t, m, id, len, c);
    ConcatField(f, 3);
    UvarintAt(Concat(f), Uint16Size + |StringBytes(m)| + |UvarintBytes(id)|, len, Concat(f[4..]));
  }

  lemma RequestChecksumField(data: seq<byte>, t: CompressType, m: seq<byte>, id: u64, len: u64, c: u32, i: nat)
    requires data == Concat(RequestLayout(t, m, id, len, c))
    requires i == Uint16Size + |StringBytes(m)| + |UvarintBytes(id)| + |UvarintBytes(len)|
    ensures i + Uint32Size <= |data| && Uint32(data[i..]) == c
  {
    var f := RequestLayout(t, m, id, len, c);
    RequestOffsets(t, m, id, len, c);
    ConcatField(f, 4);
    LE32RoundTrip(c, Concat(f[5..]));
  }

  /** Decoding the wire layout restores every field, the length field
      truncated to 32 bits (`uint32(requestLen)`), whatever the header held
      before. */
  lemma DecodeRequestWire(prev: RequestFields, t: CompressType, m: seq<byte>, id: u64, len: u64, c: u32)
    requires IsGoString(m)
    ensures DecodeRequest(prev, Concat(RequestLayout(t, m, id, len, c)))
         == Decoded(RequestFields(t, m, id, Truncate32(len), c), None)
  {
    var data := Concat(RequestLayout(t, m, id, len, c));
    var n1, n2, n3 := |StringBytes(m)|, |UvarintBytes(id)|, |UvarintBytes(len)|;
    RequestLayoutHead(data, t, m, id, len, c, n1, n2);
    RequestLayoutTail(data, t, m, id, len, c, n1, n2, n3);
    DecodeRequestFields(prev, data, t, m, id, len, c, n1, n2, n3);
  }

  /** The tag, the method name and the ID decode at their offsets ... */
  lemma RequestLayoutHead(data: seq<byte>, t: CompressType, m: seq<byte>, id: u64, len: u64, c: u32, n1: nat, n2: nat)
    requires IsGoString(m) && data == Concat(RequestLayout(t, m, id, len, c))
    requires n1 == |StringBytes(m)| && n2 == |UvarintBytes(id)|
    ensures Uint16Size <= |data| && Uint16(data) == t
    ensures Uint16Size + n1 <= |data| && ReadString(data[Uint16Size..]) == Some((m, n1))
    ensures Uint16Size + n1 + n2 <= |data| && Uvarint(data[Uint16Size + n1..]) == (id, n2)
  {
    RequestTagField(t, m, id, len, c);
    RequestMethodField(data, t, m, id, len, c, n1);
    RequestIDField(data, t, m, id, len, c, Uint16Size + n1, n2);
  }

  /** ... and so do the length and the checksum. */
  lemma RequestLayoutTail(data: seq<byte>, t: CompressType, m: seq<byte>, id: u64, len: u64, c: u32,
                          n1: nat, n2: nat, n3: nat)
    requires data == Concat(RequestLayout(t, m, id, len, c))
    requires n1 == |StringBytes(m)| && n2 == |UvarintBytes(id)| && n3 == |UvarintBytes(len)|
    ensures Uint16Size + n1 + n2 + n3 + Uint32Size <= |data|
    ensures Uvarint(data[Uint16Size + n1 + n2..]) == (len, n3)
    ensures Uint32(data[Uint16Size + n1 + n2 + n3..]) == c
  {
    RequestLenField(data, t, m, id, len, c, Uint16Size + n1 + n2, n3);
    RequestChecksumField(data, t, m, id, len, c, Uint16Size + n1 + n2 + n3);
  }

  /** Unmarshall(Marshall(h)) restores h, whatever the header held before. */
  lemma RequestRoundTrip(prev: RequestFields, h: RequestFields)
    requires IsGoString(h.serviceMethod)
    ensures DecodeRequest(prev, RequestBytes(h)) == Decoded(h, None)
  {
    DecodeRequestWire(prev, h.compressType, h.serviceMethod, h.id, h.requestLen, h.checksum);
    Truncate32Small(h.requestLen);
  }

  /** The header test's vector: {0, "Add", 12455, 266, 3845236589} marshals to
      00 00 03 41 64 64 a7 61 8a 02 6d a7 31 e5 ... */
  lemma RequestVectorBytes()
    ensures RequestBytes(RequestFields(0, [0x41, 0x64, 0x64], 12455, 266, 3845236589))
         == [0x00, 0x00, 0x03, 0x41, 0x64, 0x64, 0xa7, 0x61, 0x8a, 0x02, 0x6d, 0xa7, 0x31, 0xe5]
  {
    VectorFields();
    assert StringBytes([0x41, 0x64, 0x64]) == [0x03, 0x41, 0x64, 0x64];
    RequestFlat(0, [0x41, 0x64, 0x64], 12455, 266, 3845236589);
  }

  /** ... and those bytes decode back to the same fields. */
  lemma RequestVectorDecode()
    ensures DecodeRequest(ZeroRequest,
              [0x00, 0x00, 0x03, 0x41, 0x64, 0x64, 0xa7, 0x61, 0x8a, 0x02, 0x6d, 0xa7, 0x31, 0xe5])
         == Decoded(RequestFields(0, [0x41, 0x64, 0x64], 12455, 266, 3845236589), None)
  {
    RequestVectorBytes();
    RequestRoundTrip(ZeroRequest, RequestFields(0, [0x41, 0x64, 0x64], 12455, 266, 3845236589));
  }

  /** Empty input and input shorter than the tag fail with UnmarshalError and
      leave every field as it was (the test's zero header stays zero). */
  lemma DecodeRequestShortInput(prev: RequestFields, data: seq<byte>)
    requires |data| < Uint16Size
    ensures DecodeRequest(prev, data) == Decoded(prev, Some(UnmarshalError))
  {
  }

  /** The first 12 of the 18 bytes that encode {0, "", 2^63, 0, 0}: the tag,
      the empty method name, and nine continuation bytes of the ID. */
  lemma TruncatedRequestPrefix()
    ensures RequestBytes(RequestFields(0, [], TWO63, 0, 0))[..12]
         == [0x00, 0x00, 0x00, 0x80, 0x80, 0x80, 0x80, 0x80, 0x80, 0x80, 0x80, 0x80]
  {
    Pow128Nine();
    UvarintPowerOf128(9);
    RequestFlat(0, [], TWO63, 0, 0);
    assert StringBytes([]) == [0x00];
    assert LE16(0) == [0x00, 0x00];
  }

  /** Truncated input is not always rejected: those 12 bytes decode without
      error, because the incomplete ID and length varints read as 0 and
      consume nothing, and the checksum is then taken from the ID's bytes. */
  lemma TruncatedRequestAccepted()
    ensures DecodeRequest(ZeroRequest, [0x00, 0x00, 0x00, 0x80, 0x80, 0x80, 0x80, 0x80, 0x80, 0x80, 0x80, 0x80])
         == Decoded(RequestFields(0, [], 0, 0, 0x8080_8080), None)
  {
    var data: seq<byte> := [0x00, 0x00, 0x00, 0x80, 0x80, 0x80, 0x80, 0x80, 0x80, 0x80, 0x80, 0x80];
    assert Uvarint(data[2..]) == (0, 1);
    assert ReadString(data[2..]) == Some(([], 1));
    UvarintIncomplete(data[3..], 0, 0);
    assert Uint32(data[3..]) == 0x8080_8080;
    DecodeRequestFields(ZeroRequest, data, 0, [], 0, 0, 0x8080_8080, 1, 0, 0);
  }

  /** An ID of ten continuation bytes overflows: binary.Uvarint returns
      size -11, the cursor moves before the start of data, and slicing there
      for the length panics.  Unmarshall recovers with UnmarshalError,
      keeping the tag, the method and the ID 0 it assigned before the panic. */
  lemma RequestIDOverflow(prev: RequestFields)
    ensures DecodeRequest(prev, [0x00, 0x00, 0x00] + seq(10, _ => 0xff) + [0x02])
         == Decoded(prev.(compressType := 0, serviceMethod := [], id := 0), Some(UnmarshalError))
  {
    var data: seq<byte> := [0x00, 0x00, 0x00] + seq(10, _ => 0xff) + [0x02];
    assert Uint16(data) == 0;
    assert Uvarint(data[2..]) == (0, 1);
    assert ReadString(data[2..]) == Some(([], 1));
    UvarintOverflow(data[3..], 0, 0);
  }

  class RequestHeader {
    var compressType: CompressType
    var serviceMethod: seq<byte>
    var id: u64
    var requestLen: u32
    var checksum: u32

    function Fields(): RequestFields
      reads this
    {
      RequestFields(compressType, serviceMethod, id, requestLen, checksum)
    }

    /** `&RequestHeader{}`: every field at its zero value. */
    constructor ()
      ensures Fields() == ZeroRequest
    {
      compressType, serviceMethod, id, requestLen, checksum := 0, [], 0, 0, 0;
    }

    /** Fills a buffer of MaxHeaderSize + len(Method) bytes through an index
        cursor and returns the written prefix. */
    method Marshall() returns (bytes: seq<byte>)
      requires IsGoString(serviceMethod)
      ensures bytes == RequestBytes(Fields())
      ensures |bytes| <= MaxHeaderSize + |serviceMethod|
    {
      FieldsFit(serviceMethod, id, requestLen);
      var header := new byte[MaxHeaderSize + |serviceMethod|];
      var idx := 0;
      PutUint16(header, idx, compressType);
      idx := idx + Uint16Size;
      ghost var w := [] + LE16(compressType);
      assert header[..idx] == w;
      var n := WriteString(header, idx, serviceMethod);
      idx := idx + n;
      w := w + StringBytes(serviceMethod);
      assert header[..idx] == w;
      n := PutUvarint(header, idx, id);
      idx := idx + n;
      w := w + UvarintBytes(id);
      assert header[..idx] == w;
      n := PutUvarint(header, idx, requestLen);
      idx := idx + n;
      w := w + UvarintBytes(requestLen);
      assert header[..idx] == w;
      PutUint32(header, idx, checksum);
      idx := idx + Uint32Size;
      w := w + LE32(checksum);
      assert header[..idx] == w;
      RequestFlat(compressType, serviceMethod, id, requestLen, checksum);
      bytes := header[..idx];
    }

    /** Decodes data into the fields, in layout order. */
    method Unmarshall(data: seq<byte>) returns (err: Option<Error>)
      modifies this
      ensures Decoded(Fields(), err) == DecodeRequest(old(Fields()), data)
    {
      if |data| == 0 {
        return Some(UnmarshalError);
      }
      var idx: int := 0;
      if |data| - idx < Uint16Size {
        return Some(UnmarshalError);
      }
      compressType := Uint16(data[idx..]);
      idx := idx + Uint16Size;
      var s := ReadString(data[idx..]);
      if s.None? {
        return Some(UnmarshalError);
      }
      serviceMethod := s.value.0;
      idx := idx + s.value.1;
      var v := Uvarint(data[idx..]);
      id := v.0;
      idx := idx + v.1;
      if idx < 0 {
        return Some(UnmarshalError);
      }
      v := Uvarint(data[idx..]);
      requestLen := Truncate32(v.0);
      idx := idx + v.1;
      if idx < 0 || |data| - idx < Uint32Size {
        return Some(UnmarshalError);
      }
      checksum := Uint32(data[idx..]);
      return None;
    }

    method GetCompressType() returns (t: CompressType)
      ensures t == compressType
    {
      return compressType;
    }

    /** Clears all five fields, so the header equals a fresh one. */
    method ResetHeader()
      modifies this
      ensures Fields() == ZeroRequest
    {
      id := 0;
      compressType := 0;
      serviceMethod := [];
      requestLen := 0;
      checksum := 0;
    }
  }

  /* ---------------------------------------------------------------------- */
  /* Response header                                                         */
  /* ---------------------------------------------------------------------- */

  /** The fields of the response layout, in wire order: the ID comes before
      the error.  The length is any uint64 here, so that decoding can be
      stated for lengths Marshall never writes. */
  function ResponseLayout(t: CompressType, id: u64, e: seq<byte>, len: u64, c: u32): seq<seq<byte>> {
    [LE16(t), UvarintBytes(id), StringBytes(e), UvarintBytes(len), LE32(c)]
  }

  /** The bytes ResponseHeader.Marshall returns. */
  function ResponseBytes(h: ResponseFields): seq<byte> {
    Concat(ResponseLayout(h.compressType, h.id, h.error, h.responseLen, h.checksum))
  }

  /** The encoding fits the buffer Marshall allocates. */
  lemma ResponseBytesFit(h: ResponseFields)
    requires IsGoString(h.error)
    ensures |ResponseBytes(h)| <= MaxHeaderSize + |h.error|
  {
    ResponseOffsets(h.compressType, h.id, h.error, h.responseLen, h.checksum);
    FieldsFit(h.error, h.id, h.responseLen);
  }

  /** ResponseHeader.Unmarshall(data) applied to a header whose fields were
      `prev`.  The stages below follow the cursor idx through the layout. */
  function DecodeResponse(prev: ResponseFields, data: seq<byte>): (r: Decoded<ResponseFields>)
    ensures r.err.Some? ==> r.err == Some(UnmarshalError)
  {
    if |data| == 0 then Decoded(prev, Some(UnmarshalError))
    else if |data| < Uint16Size then Decoded(prev, Some(UnmarshalError))
    else ResponseIDAt(prev.(compressType := Uint16(data)), data, Uint16Size)
  }

  /** Reads the ID at idx; an overflowing varint moves the cursor back. */
  function ResponseIDAt(h: ResponseFields, data: seq<byte>, idx: nat): (r: Decoded<ResponseFields>)
    requires idx <= |data|
    ensures r.err.Some? ==> r.err == Some(UnmarshalError)
  {
    var (id, n) := Uvarint(data[idx..]);
    if idx + n < 0 then Decoded(h.(id := id), Some(UnmarshalError))
    else ResponseErrorAt(h.(id := id), data, idx + n)
  }

  /** Reads the error string at idx. */
  function ResponseErrorAt(h: ResponseFields, data: seq<byte>, idx: nat): (r: Decoded<ResponseFields>)
    requires idx <= |data|
    ensures r.err.Some? ==> r.err == Some(UnmarshalError)
  {
    match ReadString(data[idx..])
    case None => Decoded(h, Some(UnmarshalError))
    case Some(s) => ResponseLenAt(h.(error := s.0), data, idx + s.1)
  }

  /** Reads the body length at idx, keeping its low 32 bits. */
  function ResponseLenAt(h: ResponseFields, data: seq<byte>, idx: nat): (r: Decoded<ResponseFields>)
    requires idx <= |data|
    ensures r.err.Some? ==> r.err == Some(UnmarshalError)
  {
    var (len, n) := Uvarint(data[idx..]);
    ResponseChecksumAt(h.(responseLen := Truncate32(len)), data, idx + n)
  }

  /** Reads the checksum at idx, if four bytes are left there. */
  function ResponseChecksumAt(h: ResponseFields, data: seq<byte>, idx: int): (r: Decoded<ResponseFields>)
    ensures r.err.Some? ==> r.err == Some(UnmarshalError)
  {
    if idx < 0 || |data| - idx < Uint32Size then Decoded(h, Some(UnmarshalError))
    else Decoded(h.(checksum := Uint32(data[idx..])), None)
  }

  /* One lemma per stage: what the stage yields once the field it reads is known. */

  lemma ResponseIDStep(h: ResponseFields, data: seq<byte>, idx: nat, id: u64, n: nat, x: Decoded<ResponseFields>)
    requires idx + n <= |data| && Uvarint(data[idx..]) == (id, n) && n > 0
    requires ResponseErrorAt(h.(id := id), data, idx + n) == x
    ensures ResponseIDAt(h, data, idx) == x
  {
  }

  lemma ResponseErrorStep(h: ResponseFields, data: seq<byte>, idx: nat, e: seq<byte>, n: nat, x: Decoded<ResponseFields>)
    requires idx + n <= |data| && ReadString(data[idx..]) == Some((e, n))
    requires ResponseLenAt(h.(error := e), data, idx + n) == x
    ensures ResponseErrorAt(h, data, idx) == x
  {
  }

  lemma ResponseLenStep(h: ResponseFields, data: seq<byte>, idx: nat, len: u64, n: nat, c: u32)
    requires idx + n + Uint32Size <= |data| && Uvarint(data[idx..]) == (len, n) && Uint32(data[idx + n..]) == c
    ensures ResponseLenAt(h, data, idx) == Decoded(h.(responseLen := Truncate32(len), checksum := c), None)
  {
  }

  /** Where each field decodes at its cursor, the decoder returns those fields. */
  lemma DecodeResponseFields(prev: ResponseFields, data: seq<byte>, t: CompressType, id: u64, e: seq<byte>,
                             len: u64, c: u32, n1: nat, n2: nat, n3: nat)
    requires Uint16Size <= |data| && Uint16(data) == t
    requires 0 < n1 && Uint16Size + n1 <= |data| && Uvarint(data[Uint16Size..]) == (id, n1)
    requires Uint16Size + n1 + n2 <= |data| && ReadString(data[Uint16Size + n1..]) == Some((e, n2))
    requires 0 < n3 && Uint16Size + n1 + n2 + n3 + Uint32Size <= |data|
    requires Uvarint(data[Uint16Size + n1 + n2..]) == (len, n3)
    requires Uint32(data[Uint16Size + n1 + n2 + n3..]) == c
    ensures DecodeResponse(prev, data) == Decoded(ResponseFields(t, id, e, Truncate32(len), c), None)
  {
    var h1 := prev.(compressType := t);
    var h2 := h1.(id := id);
    var h3 := h2.(error := e);
    ResponseLenStep(h3, data, Uint16Size + n1 + n2, len, n3, c);
    ResponseErrorStep(h2, data, Uint16Size + n1, e, n2, ResponseLenAt(h3, data, Uint16Size + n1 + n2));
    ResponseIDStep(h1, data, Uint16Size, id, n1, ResponseErrorAt(h2, data, Uint16Size + n1));
  }

  /* Where each field of the layout starts, and what reads it back there. */

  lemma ResponseOffsets(t: CompressType, id: u64, e: seq<byte>, len: u64, c: u32)
    ensures var f := ResponseLayout(t, id, e, len, c);
      && |Concat(f[..1])| == Uint16Size
      && |Concat(f[..2])| == Uint16Size + |UvarintBytes(id)|
      && |Concat(f[..3])| == Uint16Size + |UvarintBytes(id)| + |StringBytes(e)|
      && |Concat(f[..4])| == Uint16Size + |UvarintBytes(id)| + |StringBytes(e)| + |UvarintBytes(len)|
      && |Concat(f)| == Uint16Size + |UvarintBytes(id)| + |StringBytes(e)| + |UvarintBytes(len)| + Uint32Size
  {
    var f := ResponseLayout(t, id, e, len, c);
    assert f[..0] == [];
    ConcatPrefix(f, 0);
    ConcatPrefix(f, 1);
    ConcatPrefix(f, 2);
    ConcatPrefix(f, 3);
    ConcatPrefix(f, 4);
    assert f[..5] == f;
  }

  /** The layout as the five fields appended in order. */
  lemma ResponseFlat(t: CompressType, id: u64, e: seq<byte>, len: u64, c: u32)
    ensures Concat(ResponseLayout(t, id, e, len, c))
         == [] + LE16(t) + UvarintBytes(id) + StringBytes(e) + UvarintBytes(len) + LE32(c)
  {
    var f := ResponseLayout(t, id, e, len, c);
    assert f[..0] == [];
    ConcatPrefix(f, 0);
    ConcatPrefix(f, 1);
    ConcatPrefix(f, 2);
    ConcatPrefix(f, 3);
    ConcatPrefix(f, 4);
    assert f[..5] == f;
  }

  lemma ResponseTagField(t: CompressType, id: u64, e: seq<byte>, len: u64, c: u32)
    ensures Uint16Size <= |Concat(ResponseLayout(t, id, e, len, c))|
    ensures Uint16(Concat(ResponseLayout(t, id, e, len, c))) == t
  {
    var f := ResponseLayout(t, id, e, len, c);
    ConcatAt(f, 0);
    assert f[0..] == f;
    LE16RoundTrip(t, Concat(f[1..]));
  }

  lemma ResponseIDField(data: seq<byte>, t: CompressType, id: u64, e: seq<byte>, len: u64, c: u32, n: nat)
    requires data == Concat(ResponseLayout(t, id, e, len, c)) && n == |UvarintBytes(id)|
    ensures Uint16Size + n <= |data| && Uvarint(data[Uint16Size..]) == (id, n)
  {
    var f := ResponseLayout(t, id, e, len, c);
    ResponseOffsets(t, id, e, len, c);
    ConcatField(f, 1);
    UvarintAt(Concat(f), Uint16Size, id, Concat(f[2..]));
  }

  lemma ResponseErrorField(data: seq<byte>, t: CompressType, id: u64, e: seq<byte>, len: u64, c: u32, i: nat, n: nat)
    requires IsGoString(e) && data == Concat(ResponseLayout(t, id, e, len, c))
    requires i == Uint16Size + |UvarintBytes(id)| && n == |StringBytes(e)|
    ensures i + n <= |data| && ReadString(data[i..]) == Some((e, n))
  {
    var f := ResponseLayout(t, id, e, len, c);
    ResponseOffsets(t, id, e, len, c);
    ConcatField(f, 2);
    ReadStringAt(Concat(f), Uint16Size + |UvarintBytes(id)|, e, Concat(f[3..]));
  }

  lemma ResponseLenField(data: seq<byte>, t: CompressType, id: u64, e: seq<byte>, len: u64, c: u32, i: nat, n: nat)
    requires data == Concat(ResponseLayout(t, id, e, len, c))
    requires i == Uint16Size + |UvarintBytes(id)| + |StringBytes(e)| && n == |UvarintBytes(len)|
    ensures i + n <= |data| && Uvarint(data[i..]) == (len, n)
  {
    var f := ResponseLayout(t, id, e, len, c);
    ResponseOffsets(t, id, e, len, c);
    ConcatField(f, 3);
    UvarintAt(Concat(f), Uint16Size + |UvarintBytes(id)| + |StringBytes(e)|, len, Concat(f[4..]));
  }

  lemma ResponseChecksumField(data: seq<byte>, t: CompressType, id: u64, e: seq<byte>, len: u64, c: u32, i: nat)
    requires data == Concat(ResponseLayout(t, id, e, len, c))
    requires i == Uint16Size + |UvarintBytes(id)| + |StringBytes(e)| + |UvarintBytes(len)|
    ensures i + Uint32Size <= |data| && Uint32(data[i..]) == c
  {
    var f := ResponseLayout(t, id, e, len, c);
    ResponseOffsets(t, id, e, len, c);
    ConcatField(f, 4);
    LE32RoundTrip(c, Concat(f[5..]));
  }

  /** Decoding the wire layout restores every field, the length truncated to
      32 bits, whatever the header held before. */
  lemma DecodeResponseWire(prev: ResponseFields, t: CompressType, id: u64, e: seq<byte>, len: u64, c: u32)
    requires IsGoString(e)
    ensures DecodeResponse(prev, Concat(ResponseLayout(t, id, e, len, c)))
         == Decoded(ResponseFields(t, id, e, Truncate32(len), c), None)
  {
    var data := Concat(ResponseLayout(t, id, e, len, c));
    var n1, n2, n3 := |UvarintBytes(id)|, |StringBytes(e)|, |UvarintBytes(len)|;
    ResponseLayoutHead(data, t, id, e, len, c, n1, n2);
    ResponseLayoutTail(data, t, id, e, len, c, n1, n2, n3);
    DecodeResponseFields(prev, data, t, id, e, len, c, n1, n2, n3);
  }

  /** The tag, the ID and the error decode at their offsets ... */
  lemma ResponseLayoutHead(data: seq<byte>, t: CompressType, id: u64, e: seq<byte>, len: u64, c: u32, n1: nat, n2: nat)
    requires IsGoString(e) && data == Concat(ResponseLayout(t, id, e, len, c))
    requires n1 == |UvarintBytes(id)| && n2 == |StringBytes(e)|
    ensures Uint16Size <= |data| && Uint16(data) == t
    ensures 0 < n1 && Uint16Size + n1 <= |data| && Uvarint(data[Uint16Size..]) == (id, n1)
    ensures Uint16Size + n1 + n2 <= |data| && ReadString(data[Uint16Size + n1..]) == Some((e, n2))
  {
    ResponseTagField(t, id, e, len, c);
    ResponseIDField(data, t, id, e, len, c, n1);
    ResponseErrorField(data, t, id, e, len, c, Uint16Size + n1, n2);
  }

  /** ... and so do the length and the checksum. */
  lemma ResponseLayoutTail(data: seq<byte>, t: CompressType, id: u64, e: seq<byte>, len: u64, c: u32,
                           n1: nat, n2: nat, n3: nat)
    requires data == Concat(ResponseLayout(t, id, e, len, c))
    requires n1 == |UvarintBytes(id)| && n2 == |StringBytes(e)| && n3 == |UvarintBytes(len)|
    ensures 0 < n3 && Uint16Size + n1 + n2 + n3 + Uint32Size <= |data|
    ensures Uvarint(data[Uint16Size + n1 + n2..]) == (len, n3)
    ensures Uint32(data[Uint16Size + n1 + n2 + n3..]) == c
  {
    ResponseLenField(data, t, id, e, len, c, Uint16Size + n1 + n2, n3);
    ResponseChecksumField(data, t, id, e, len, c, Uint16Size + n1 + n2 + n3);
  }

  /** Unmarshall(Marshall(h)) restores h, whatever the header held before. */
  lemma ResponseRoundTrip(prev: ResponseFields, h: ResponseFields)
    requires IsGoString(h.error)
    ensures DecodeResponse(prev, ResponseBytes(h)) == Decoded(h, None)
  {
    DecodeResponseWire(prev, h.compressType, h.id, h.error, h.responseLen, h.checksum);
    Truncate32Small(h.responseLen);
  }

  /** The header test's vector: {0, "error", 12455, 266, 3845236589} marshals
      to 00 00 a7 61 05 65 72 72 6f 72 8a 02 6d a7 31 e5 ... */
  lemma ResponseVectorBytes()
    ensures ResponseBytes(ResponseFields(0, 12455, [0x65, 0x72, 0x72, 0x6f, 0x72], 266, 3845236589))
         == [0x00, 0x00, 0xa7, 0x61, 0x05, 0x65, 0x72, 0x72, 0x6f, 0x72, 0x8a, 0x02, 0x6d, 0xa7, 0x31, 0xe5]
  {
    VectorFields();
    ResponseFlat(0, 12455, [0x65, 0x72, 0x72, 0x6f, 0x72], 266, 3845236589);
    var head: seq<byte> := [0x00, 0x00, 0xa7, 0x61, 0x05, 0x65, 0x72, 0x72, 0x6f, 0x72];
    assert [] + LE16(0) + UvarintBytes(12455) + StringBytes([0x65, 0x72, 0x72, 0x6f, 0x72]) == head;
  }

  /** ... and those bytes decode back to the same fields. */
  lemma ResponseVectorDecode()
    ensures DecodeResponse(ZeroResponse,
              [0x00, 0x00, 0xa7, 0x61, 0x05, 0x65, 0x72, 0x72, 0x6f, 0x72, 0x8a, 0x02, 0x6d, 0xa7, 0x31, 0xe5])
         == Decoded(ResponseFields(0, 12455, [0x65, 0x72, 0x72, 0x6f, 0x72], 266, 3845236589), None)
  {
    ResponseVectorBytes();
    ResponseRoundTrip(ZeroResponse, ResponseFields(0, 12455, [0x65, 0x72, 0x72, 0x6f, 0x72], 266, 3845236589));
  }

  /** Empty input and input shorter than the tag fail with UnmarshalError and
      leave every field as it was. */
  lemma DecodeResponseShortInput(prev: ResponseFields, data: seq<byte>)
    requires |data| < Uint16Size
    ensures DecodeResponse(prev, data) == Decoded(prev, Some(UnmarshalError))
  {
  }

  /** An ID of ten continuation bytes overflows: binary.Uvarint returns
      size -11, the cursor moves before the start of data, and slicing there
      for the error text panics.  Unmarshall recovers with UnmarshalError,
      keeping the tag and the ID 0 it assigned before the panic. */
  lemma ResponseIDOverflow(prev: ResponseFields)
    ensures DecodeResponse(prev, [0x00, 0x00] + seq(10, _ => 0xff) + [0x02])
         == Decoded(prev.(compressType := 0, id := 0), Some(UnmarshalError))
  {
    var data: seq<byte> := [0x00, 0x00] + seq(10, _ => 0xff) + [0x02];
    assert Uint16(data) == 0;
    UvarintOverflow(data[2..], 0, 0);
  }

  class ResponseHeader {
    var compressType: CompressType
    var id: u64
    var error: seq<byte>
    var responseLen: u32
    var checksum: u32

    function Fields(): ResponseFields
      reads this
    {
      ResponseFields(compressType, id, error, responseLen, checksum)
    }

    /** `&ResponseHeader{}`: every field at its zero value. */
    constructor ()
      ensures Fields() == ZeroResponse
    {
      compressType, id, error, responseLen, checksum := 0, 0, [], 0, 0;
    }

    /** Fills a buffer of MaxHeaderSize + len(Error) bytes through an index
        cursor and returns the written prefix. */
    method Marshall() returns (bytes: seq<byte>)
      requires IsGoString(error)
      ensures bytes == ResponseBytes(Fields())
      ensures |bytes| <= MaxHeaderSize + |error|
    {
      FieldsFit(error, id, responseLen);
      var header := new byte[MaxHeaderSize + |error|];
      var idx := 0;
      PutUint16(header, idx, compressType);
      idx := idx + Uint16Size;
      ghost var w := [] + LE16(compressType);
      assert header[..idx] == w;
      var n := PutUvarint(header, idx, id);
      idx := idx + n;
      w := w + UvarintBytes(id);
      assert header[..idx] == w;
      n := WriteString(header, idx, error);
      idx := idx + n;
      w := w + StringBytes(error);
      assert header[..idx] == w;
      n := PutUvarint(header, idx, responseLen);
      idx := idx + n;
      w := w + UvarintBytes(responseLen);
      assert header[..idx] == w;
      PutUint32(header, idx, checksum);
      idx := idx + Uint32Size;
      w := w + LE32(checksum);
      assert header[..idx] == w;
      ResponseFlat(compressType, id, error, responseLen, checksum);
      bytes := header[..idx];
    }

    /** Decodes data into the fields, in layout order. */
    method Unmarshall(data: seq<byte>) returns (err: Option<Error>)
      modifies this
      ensures Decoded(Fields(), err) == DecodeResponse(old(Fields()), data)
    {
      if |data| == 0 {
        return Some(UnmarshalError);
      }
      var idx: int := 0;
      if |data| - idx < Uint16Size {
        return Some(UnmarshalError);
      }
      compressType := Uint16(data[idx..]);
      idx := idx + Uint16Size;
      var v := Uvarint(data[idx..]);
      id := v.0;
      idx := idx + v.1;
      if idx < 0 {
        return Some(UnmarshalError);
      }
      var s := ReadString(data[idx..]);
      if s.None? {
        return Some(UnmarshalError);
      }
      error := s.value.0;
      idx := idx + s.value.1;
      v := Uvarint(data[idx..]);
      responseLen := Truncate32(v.0);
      idx := idx + v.1;
      if idx < 0 || |data| - idx < Uint32Size {
        return Some(UnmarshalError);
      }
      checksum := Uint32(data[idx..]);
      return None;
    }

    method GetCompressType() returns (t: CompressType)
      ensures t == compressType
    {
      return compressType;
    }

    /** Clears all five fields, so the header equals a fresh one. */
    method ResetHeader()
      modifies this
      ensures Fields() == ZeroResponse
    {
      error := [];
      id := 0;
      compressType := 0;
      checksum := 0;
      responseLen := 0;
    }
  }
}
