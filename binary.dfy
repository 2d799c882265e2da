/** The parts of Go's encoding/binary package that the header codec and the
    framing rely on: fixed-width little-endian integers and the unsigned
    LEB128 variable-length integer ("uvarint", DWARF v4 section 7.6) that
    binary.PutUvarint writes and binary.Uvarint / binary.ReadUvarint read. */
module Binary {
  import opened Errors

  const TWO32: nat := 0x1_0000_0000
  const TWO63: nat := 0x8000_0000_0000_0000
  const TWO64: nat := 0x1_0000_0000_0000_0000

  type byte = x: int | 0 <= x < 0x100
  type u16 = x: int | 0 <= x < 0x1_0000
  type u32 = x: int | 0 <= x < 0x1_0000_0000
  type u64 = x: int | 0 <= x < 0x1_0000_0000_0000_0000

  /** binary.MaxVarintLen64: the longest uvarint encoding of a uint64. */
  const MaxVarintLen64: nat := 10

  /** A Go string or byte slice: its length is a non-negative int. */
  predicate IsGoString(s: seq<byte>) {
    |s| < TWO63
  }

  function Min(a: int, b: int): int {
    if a <= b then a else b
  }

  /** 128^i, the weight of the i-th seven-bit group of a uvarint. */
  function Pow128(i: nat): (p: nat)
    ensures p >= 1
  {
    if i == 0 then 1 else 128 * Pow128(i - 1)
  }

  lemma {:induction false} Pow128Monotonic(i: nat, j: nat)
    requires i <= j
    ensures Pow128(i) <= Pow128(j)
    decreases j
  {
    if i < j {
      Pow128Monotonic(i, j - 1);
    }
  }

  lemma Pow128Nine()
    ensures Pow128(9) == TWO63
  {
    assert Pow128(3) == 0x20_0000;
    assert Pow128(6) == 0x400_0000_0000;
  }

  /** Go's uint32(x) conversion from a wider unsigned integer: the low 32 bits. */
  function Truncate32(x: nat): u32 {
    x % TWO32
  }

  lemma Truncate32Small(x: nat)
    requires x < TWO32
    ensures Truncate32(x) == x
  {
  }

  /* ---------------------------------------------------------------------- */
  /* Fixed-width little-endian integers                                      */
  /* ---------------------------------------------------------------------- */

  /** The two bytes binary.LittleEndian.PutUint16 stores, low byte first. */
  function LE16(v: u16): (b: seq<byte>)
    ensures |b| == 2 && Uint16(b) == v
  {
    [v % 0x100, v / 0x100]
  }

  /** binary.LittleEndian.Uint16: the value of the first two bytes. */
  function Uint16(b: seq<byte>): u16
    requires |b| >= 2
  {
    b[0] as int + 0x100 * (b[1] as int)
  }

  /** The four bytes binary.LittleEndian.PutUint32 stores, low byte first. */
  function LE32(v: u32): (b: seq<byte>)
    ensures |b| == 4 && Uint32(b) == v
  {
    [v % 0x100, v / 0x100 % 0x100, v / 0x1_0000 % 0x100, v / 0x100_0000]
  }

  /** binary.LittleEndian.Uint32: the value of the first four bytes. */
  function Uint32(b: seq<byte>): u32
    requires |b| >= 4
  {
    b[0] as int + 0x100 * (b[1] as int) + 0x1_0000 * (b[2] as int) + 0x100_0000 * (b[3] as int)
  }

  /** A u16 survives the two-byte field, whatever follows it. */
  lemma LE16RoundTrip(v: u16, rest: seq<byte>)
    ensures Uint16(LE16(v) + rest) == v
  {
    var b := LE16(v) + rest;
    assert b[0] == LE16(v)[0] && b[1] == LE16(v)[1];
  }

  /** The same read where a layout starts with the field: the rest of the
      layout follows it. */
  lemma LE16At(data: seq<byte>, v: u16, rest: seq<byte>)
    requires data == LE16(v) + rest
    ensures |data| >= 2 && Uint16(data) == v && data[2..] == rest
  {
    LE16RoundTrip(v, rest);
  }

  /** A u32 survives the four-byte field, whatever follows it. */
  lemma LE32RoundTrip(v: u32, rest: seq<byte>)
    ensures Uint32(LE32(v) + rest) == v
  {
    var b := LE32(v) + rest;
    assert b[..4] == LE32(v);
  }

  /** binary.LittleEndian.PutUint16(buf[off:], v). */
  method PutUint16(buf: array<byte>, off: nat, v: u16)
    requires off + 2 <= buf.Length
    modifies buf
    ensures buf[..off + 2] == old(buf[..off]) + LE16(v)
    ensures buf[off + 2..] == old(buf[off + 2..])
  {
    buf[off] := v % 0x100;
    buf[off + 1] := v / 0x100;
  }

  /** binary.LittleEndian.PutUint32(buf[off:], v). */
  method PutUint32(buf: array<byte>, off: nat, v: u32)
    requires off + 4 <= buf.Length
    modifies buf
    ensures buf[..off + 4] == old(buf[..off]) + LE32(v)
    ensures buf[off + 4..] == old(buf[off + 4..])
  {
    buf[off] := v % 0x100;
    buf[off + 1] := v / 0x100 % 0x100;
    buf[off + 2] := v / 0x1_0000 % 0x100;
    buf[off + 3] := v / 0x100_0000;
  }

  /** Go's copy(buf[off:], src): copies as many bytes as fit and returns how many. */
  method Copy(buf: array<byte>, off: nat, src: seq<byte>) returns (m: nat)
    requires off <= buf.Length
    modifies buf
    ensures m == Min(|src|, buf.Length - off)
    ensures buf[..off + m] == old(buf[..off]) + src[..m]
    ensures buf[off + m..] == old(buf[off + m..])
  {
    m := Min(|src|, buf.Length - off);
    var k := 0;
    while k < m
      invariant 0 <= k <= m
      invariant buf[..off + k] == old(buf[..off]) + src[..k]
      invariant buf[off + k..] == old(buf[off + k..])
    {
      ghost var before := buf[..];
      buf[off + k] := src[k];
      assert buf[..off + k + 1] == before[..off + k] + [src[k]];
      assert src[..k + 1] == src[..k] + [src[k]];
      assert buf[off + k + 1..] == before[off + k + 1..];
      k := k + 1;
    }
  }

  /* ---------------------------------------------------------------------- */
  /* Uvarint encoding                                                        */
  /* ---------------------------------------------------------------------- */

  /** The bytes binary.PutUvarint stores for x: seven bits per byte, lowest
      group first, the high bit set on every byte except the last. */
  function UvarintBytes(x: nat): (b: seq<byte>)
    ensures |b| >= 1
    decreases x
  {
    if x < 0x80 then [x] else [x % 0x80 + 0x80] + UvarintBytes(x / 0x80)
  }

  /** The encoding is the shortest one: x needs all |b| groups and no more,
      i.e. 128^(|b|-1) <= x < 128^|b| (the lower bound for |b| > 1). */
  lemma {:induction false} UvarintLength(x: nat)
    ensures x < Pow128(|UvarintBytes(x)|)
    ensures |UvarintBytes(x)| > 1 ==> Pow128(|UvarintBytes(x)| - 1) <= x
    decreases x
  {
    if x >= 0x80 {
      var q := x / 0x80;
      UvarintLength(q);
      var m := |UvarintBytes(q)|;
      assert |UvarintBytes(x)| == m + 1;
      assert x == 0x80 * q + x % 0x80;
      assert q + 1 <= Pow128(m);
      assert x < 0x80 * (q + 1);
      assert 0x80 * (q + 1) <= 0x80 * Pow128(m);
      if m > 1 {
        assert 0x80 * Pow128(m - 1) <= 0x80 * q;
      }
    }
  }

  /** Every uint64 encodes in at most binary.MaxVarintLen64 bytes. */
  lemma UvarintFits(x: u64)
    ensures |UvarintBytes(x)| <= MaxVarintLen64
  {
    UvarintLength(x);
    var n := |UvarintBytes(x)|;
    if n > MaxVarintLen64 {
      Pow128Monotonic(10, n - 1);
      Pow128Nine();
      assert false;
    }
  }

  /** binary.PutUvarint(buf[off:], x): writes the encoding of x, returns its length. */
  method PutUvarint(buf: array<byte>, off: nat, x: u64) returns (n: nat)
    requires off + |UvarintBytes(x)| <= buf.Length
    modifies buf
    ensures n == |UvarintBytes(x)|
    ensures buf[..off + n] == old(buf[..off]) + UvarintBytes(x)
    ensures buf[off + n..] == old(buf[off + n..])
  {
    ghost var enc := UvarintBytes(x);
    var v: nat := x;
    var i: nat := 0;
    while v >= 0x80
      invariant i + |UvarintBytes(v)| == |enc| && enc[i..] == UvarintBytes(v)
      invariant buf[..off + i] == old(buf[..off]) + enc[..i]
      invariant buf[off + |enc|..] == old(buf[off + |enc|..])
      decreases v
    {
      assert enc[i] == v % 0x80 + 0x80 && enc[i + 1..] == UvarintBytes(v / 0x80) by {
        assert UvarintBytes(v) == [v % 0x80 + 0x80] + UvarintBytes(v / 0x80);
        assert enc[i..][1..] == enc[i + 1..];
      }
      buf[off + i] := v % 0x80 + 0x80;
      assert buf[..off + i + 1] == buf[..off + i] + [enc[i]];
      assert enc[..i + 1] == enc[..i] + [enc[i]];
      v := v / 0x80;
      i := i + 1;
    }
    assert enc[i] == v && i + 1 == |enc|;
    ghost var before := buf[..];
    buf[off + i] := v;
    assert buf[..off + i + 1] == buf[..off + i] + [enc[i]];
    assert enc[..i + 1] == enc;
    n := i + 1;
    assert buf[off + n..] == before[off + n..];
  }

  /* ---------------------------------------------------------------------- */
  /* Uvarint decoding from a byte slice: binary.Uvarint                      */
  /* ---------------------------------------------------------------------- */

  /** binary.Uvarint(buf): the value and the number of bytes read when the
      encoding is complete; (0, 0) when buf ends before the last byte;
      (0, -(i+1)) when the value overflows 64 bits at byte i. */
  function Uvarint(buf: seq<byte>): (r: (nat, int))
    ensures r.0 < TWO64
    ensures -(MaxVarintLen64 + 1) <= r.1 <= |buf|
    ensures r.1 <= 0 ==> r.0 == 0
  {
    UvarintFrom(buf, 0, 0)
  }

  /** The loop of binary.Uvarint from byte i on, x holding the groups already read. */
  function UvarintFrom(buf: seq<byte>, i: nat, x: nat): (r: (nat, int))
    requires i <= |buf| && i <= MaxVarintLen64 && x < Pow128(i)
    ensures r.0 < TWO64
    ensures -(MaxVarintLen64 + 1) <= r.1 <= |buf|
    ensures r.1 <= 0 ==> r.0 == 0
    decreases |buf| - i
  {
    if i == |buf| then (0, 0)
    else if i == MaxVarintLen64 then (0, -(i + 1))
    else if buf[i] < 0x80 then
      if i == MaxVarintLen64 - 1 && buf[i] > 1 then (0, -(i + 1))
      else
        LastGroupBound(x, buf[i], i);
        (x + buf[i] * Pow128(i), i + 1)
    else
      GroupBound(x, buf[i] - 0x80, i);
      UvarintFrom(buf, i + 1, x + (buf[i] - 0x80) * Pow128(i))
  }

  /** Adding a seven-bit group g at position i keeps the value below 128^(i+1). */
  lemma GroupBound(x: nat, g: nat, i: nat)
    requires x < Pow128(i) && g < 0x80
    ensures x + g * Pow128(i) < Pow128(i + 1)
  {
    var p := Pow128(i);
    assert g * p <= 127 * p by {
      MulLeft(g, 127, p);
    }
    assert Pow128(i + 1) == 128 * p;
  }

  /** A group that ends the encoding keeps the value below 2^64, provided it
      is at most 1 when it is the tenth group. */
  lemma LastGroupBound(x: nat, g: nat, i: nat)
    requires x < Pow128(i) && g < 0x80 && i < MaxVarintLen64
    requires i == MaxVarintLen64 - 1 ==> g <= 1
    ensures x + g * Pow128(i) < TWO64
  {
    Pow128Nine();
    if i < MaxVarintLen64 - 1 {
      GroupBound(x, g, i);
      Pow128Monotonic(i + 1, 9);
    } else {
      MulLeft(g, 1, Pow128(i));
    }
  }

  lemma MulLeft(a: nat, b: nat, c: nat)
    requires a <= b
    ensures a * c <= b * c
  {
  }

  /** binary.Uvarint reads back what binary.PutUvarint wrote, starting at any
      group position i of an encoding, whatever bytes follow. */
  lemma {:induction false} UvarintFromEncoding(buf: seq<byte>, i: nat, x: nat, y: nat, rest: seq<byte>)
    requires i <= |buf| && buf[i..] == UvarintBytes(y) + rest
    requires i + |UvarintBytes(y)| <= MaxVarintLen64
    requires x < Pow128(i) && x + y * Pow128(i) < TWO64
    ensures UvarintFrom(buf, i, x) == (x + y * Pow128(i), i + |UvarintBytes(y)|)
    decreases y
  {
    if y < 0x80 {
      UvarintFromLastGroup(buf, i, x, y, rest);
    } else {
      var x' := UvarintFromGroup(buf, i, x, y, rest);
      UvarintFromEncoding(buf, i + 1, x', y / 0x80, rest);
    }
  }

  /** A last group y < 128 at position i ends the loop with x + y * 128^i. */
  lemma UvarintFromLastGroup(buf: seq<byte>, i: nat, x: nat, y: nat, rest: seq<byte>)
    requires y < 0x80 && i <= |buf| && buf[i..] == UvarintBytes(y) + rest
    requires i + |UvarintBytes(y)| <= MaxVarintLen64
    requires x < Pow128(i) && x + y * Pow128(i) < TWO64
    ensures UvarintFrom(buf, i, x) == (x + y * Pow128(i), i + |UvarintBytes(y)|)
  {
    assert buf[i] == buf[i..][0] == y;
    if i == MaxVarintLen64 - 1 {
      Pow128Nine();
      assert y <= 1;
    }
  }

  /** A continuation group at position i adds its low seven bits to x and
      moves on to the encoding of y / 128 at i + 1, which weighs the rest. */
  lemma UvarintFromGroup(buf: seq<byte>, i: nat, x: nat, y: nat, rest: seq<byte>) returns (x': nat)
    requires y >= 0x80 && i <= |buf| && buf[i..] == UvarintBytes(y) + rest
    requires i + |UvarintBytes(y)| <= MaxVarintLen64
    requires x < Pow128(i) && x + y * Pow128(i) < TWO64
    ensures i + 1 <= |buf| && buf[i + 1..] == UvarintBytes(y / 0x80) + rest
    ensures i + 1 + |UvarintBytes(y / 0x80)| == i + |UvarintBytes(y)| && i + 1 <= MaxVarintLen64
    ensures x' < Pow128(i + 1) && x' + (y / 0x80) * Pow128(i + 1) == x + y * Pow128(i)
    ensures UvarintFrom(buf, i, x) == UvarintFrom(buf, i + 1, x')
  {
    var enc := UvarintBytes(y);
    assert enc == [y % 0x80 + 0x80] + UvarintBytes(y / 0x80);
    assert buf[i] == buf[i..][0] == y % 0x80 + 0x80;
    assert buf[i + 1..] == buf[i..][1..];
    x' := x + (y % 0x80) * Pow128(i);
    GroupBound(x, y % 0x80, i);
    SplitGroup(y, i);
  }

  /** y groups at position i weigh the same as its low group at i plus the
      remaining groups at i + 1. */
  lemma SplitGroup(y: nat, i: nat)
    ensures y * Pow128(i) == (y / 0x80) * Pow128(i + 1) + (y % 0x80) * Pow128(i)
  {
    var q, g, p := y / 0x80, y % 0x80, Pow128(i);
    assert y == 0x80 * q + g;
    assert Pow128(i + 1) == 0x80 * p;
    calc {
      y * p;
      (0x80 * q + g) * p;
      { assert (0x80 * q + g) * p == (0x80 * q) * p + g * p; }
      (0x80 * q) * p + g * p;
      { assert (0x80 * q) * p == q * (0x80 * p); }
      q * (0x80 * p) + g * p;
    }
  }

  /** binary.Uvarint(PutUvarint(v) ++ rest) == (v, length of the encoding). */
  lemma UvarintRoundTrip(v: u64, rest: seq<byte>)
    ensures Uvarint(UvarintBytes(v) + rest) == (v, |UvarintBytes(v)|)
  {
    UvarintFits(v);
    var buf := UvarintBytes(v) + rest;
    assert buf[0..] == buf;
    UvarintFromEncoding(buf, 0, 0, v, rest);
  }

  /** The round trip read at a cursor: an encoding found at data[idx:] is
      read back, and the cursor then stands where the encoding ends. */
  lemma UvarintAt(data: seq<byte>, idx: nat, v: u64, rest: seq<byte>)
    requires idx <= |data| && data[idx..] == UvarintBytes(v) + rest
    ensures Uvarint(data[idx..]) == (v, |UvarintBytes(v)|)
    ensures idx + |UvarintBytes(v)| <= |data| && data[idx + |UvarintBytes(v)|..] == rest
  {
    UvarintRoundTrip(v, rest);
    assert data[idx..][|UvarintBytes(v)|..] == rest;
  }

  /** 128^k encodes as k continuation bytes 0x80 followed by 0x01. */
  lemma {:induction false} UvarintPowerOf128(k: nat)
    ensures UvarintBytes(Pow128(k)) == seq(k, _ => 0x80) + [1]
  {
    if k > 0 {
      UvarintPowerOf128(k - 1);
      var p := Pow128(k - 1);
      assert Pow128(k) / 0x80 == p && Pow128(k) % 0x80 == 0;
      assert seq(k, _ => 0x80) == [0x80] + seq(k - 1, _ => 0x80);
    }
  }

  /** A buffer of at most ten bytes that all carry the continuation bit is an
      incomplete encoding: binary.Uvarint reports (0, 0). */
  lemma {:induction false} UvarintIncomplete(buf: seq<byte>, i: nat, x: nat)
    requires i <= |buf| <= MaxVarintLen64 && x < Pow128(i)
    requires forall j :: i <= j < |buf| ==> buf[j] >= 0x80
    ensures UvarintFrom(buf, i, x) == (0, 0)
    decreases |buf| - i
  {
    if i < |buf| {
      var g := buf[i] as int - 0x80;
      var x' := x + g * Pow128(i);
      GroupBound(x, g, i);
      UvarintIncomplete(buf, i + 1, x');
      assert UvarintFrom(buf, i, x) == UvarintFrom(buf, i + 1, x');
    }
  }

  /** Ten bytes that all carry the continuation bit overflow 64 bits,
      whatever follows them: binary.Uvarint reports (0, -11). */
  lemma {:induction false} UvarintOverflow(buf: seq<byte>, i: nat, x: nat)
    requires i <= MaxVarintLen64 < |buf| && x < Pow128(i)
    requires forall j :: i <= j < MaxVarintLen64 ==> buf[j] >= 0x80
    ensures UvarintFrom(buf, i, x) == (0, -(MaxVarintLen64 + 1))
    decreases MaxVarintLen64 - i
  {
    if i < MaxVarintLen64 {
      var g := buf[i] as int - 0x80;
      var x' := x + g * Pow128(i);
      GroupBound(x, g, i);
      UvarintOverflow(buf, i + 1, x');
      assert UvarintFrom(buf, i, x) == UvarintFrom(buf, i + 1, x');
    }
  }

  /* ---------------------------------------------------------------------- */
  /* Uvarint decoding from a byte stream: binary.ReadUvarint                 */
  /* ---------------------------------------------------------------------- */

  /** Outcome of binary.ReadUvarint: the value, the error, and how many bytes
      it took from the stream. */
  datatype VarintRead = VarintRead(value: nat, err: Option<Error>, used: nat)

  /** binary.ReadUvarint on a stream whose remaining bytes are `input`:
      io.EOF if the stream is empty, io.ErrUnexpectedEOF if it ends inside the
      encoding, the overflow error after ten bytes without a final one or if
      the tenth byte exceeds 1. */
  function ReadUvarint(input: seq<byte>): (r: VarintRead)
    ensures r.used <= |input| && r.used <= MaxVarintLen64
    ensures r.err.None? ==> r.value < TWO64 && r.used >= 1
  {
    ReadUvarintFrom(input, 0, 0)
  }

  function ReadUvarintFrom(input: seq<byte>, i: nat, x: nat): (r: VarintRead)
    requires i <= |input| && i <= MaxVarintLen64 && x < Pow128(i)
    ensures i <= r.used <= |input| && r.used <= MaxVarintLen64
    ensures r.err.None? ==> r.value < TWO64 && r.used >= 1
    decreases MaxVarintLen64 - i
  {
    if i == MaxVarintLen64 then VarintRead(x, Some(VarintOverflow), i)
    else if i == |input| then VarintRead(x, Some(if i > 0 then UnexpectedEOF else EOF), i)
    else if input[i] < 0x80 then
      if i == MaxVarintLen64 - 1 && input[i] > 1 then VarintRead(x, Some(VarintOverflow), i + 1)
      else
        LastGroupBound(x, input[i], i);
        VarintRead(x + input[i] * Pow128(i), None, i + 1)
    else
      GroupBound(x, input[i] - 0x80, i);
      ReadUvarintFrom(input, i + 1, x + (input[i] - 0x80) * Pow128(i))
  }

  /** Wherever binary.Uvarint finds a complete encoding, binary.ReadUvarint
      reads the same value and consumes the same bytes. */
  lemma {:induction false} ReadUvarintAgrees(input: seq<byte>, i: nat, x: nat)
    requires i <= |input| && i <= MaxVarintLen64 && x < Pow128(i)
    requires UvarintFrom(input, i, x).1 > 0
    ensures ReadUvarintFrom(input, i, x)
         == VarintRead(UvarintFrom(input, i, x).0, None, UvarintFrom(input, i, x).1)
    decreases |input| - i
  {
    if i < |input| && i < MaxVarintLen64 && input[i] >= 0x80 {
      var x' := BothReadersStep(input, i, x);
      ReadUvarintAgrees(input, i + 1, x');
    } else {
      BothReadersStop(input, i, x);
    }
  }

  /** On a continuation byte both loops add the same group and move on. */
  lemma BothReadersStep(input: seq<byte>, i: nat, x: nat) returns (x': nat)
    requires i < |input| && i < MaxVarintLen64 && x < Pow128(i) && input[i] >= 0x80
    ensures x' < Pow128(i + 1)
    ensures UvarintFrom(input, i, x) == UvarintFrom(input, i + 1, x')
    ensures ReadUvarintFrom(input, i, x) == ReadUvarintFrom(input, i + 1, x')
  {
    MulLeft(0, input[i] - 0x80, Pow128(i));
    x' := x + (input[i] - 0x80) * Pow128(i);
    GroupBound(x, input[i] - 0x80, i);
  }

  /** Where binary.Uvarint stops with a value, so does binary.ReadUvarint. */
  lemma BothReadersStop(input: seq<byte>, i: nat, x: nat)
    requires i <= |input| && i <= MaxVarintLen64 && x < Pow128(i)
    requires !(i < |input| && i < MaxVarintLen64 && input[i] >= 0x80)
    requires UvarintFrom(input, i, x).1 > 0
    ensures ReadUvarintFrom(input, i, x)
         == VarintRead(UvarintFrom(input, i, x).0, None, UvarintFrom(input, i, x).1)
  {
  }

  /** binary.ReadUvarint reads back what binary.PutUvarint wrote and stops
      right after it. */
  lemma ReadUvarintRoundTrip(v: u64, rest: seq<byte>)
    ensures ReadUvarint(UvarintBytes(v) + rest) == VarintRead(v, None, |UvarintBytes(v)|)
  {
    UvarintRoundTrip(v, rest);
    ReadUvarintAgrees(UvarintBytes(v) + rest, 0, 0);
  }

  /* ---------------------------------------------------------------------- */
  /* Layouts made of consecutive fields                                      */
  /* ---------------------------------------------------------------------- */

  /** The fields of a layout written one after the other. */
  function Concat(fields: seq<seq<byte>>): seq<byte>
  {
    if |fields| == 0 then [] else fields[0] + Concat(fields[1..])
  }

  /** The layout from field k on is field k followed by the layout after it. */
  lemma ConcatAt(fields: seq<seq<byte>>, k: nat)
    requires k < |fields|
    ensures Concat(fields[k..]) == fields[k] + Concat(fields[k + 1..])
  {
    assert fields[k..][1..] == fields[k + 1..];
  }

  /** Writing field k after the first k fields gives the first k + 1 fields. */
  lemma {:induction false} ConcatPrefix(fields: seq<seq<byte>>, k: nat)
    requires k < |fields|
    ensures Concat(fields[..k + 1]) == Concat(fields[..k]) + fields[k]
  {
    if k > 0 {
      ConcatPrefix(fields[1..], k - 1);
      assert fields[1..][..k] == fields[..k + 1][1..];
      assert fields[1..][..k - 1] == fields[..k][1..];
    } else {
      assert fields[..1] == [fields[0]];
      assert Concat(fields[..1]) == fields[0] + Concat(fields[..1][1..]);
    }
  }

  /** Field k starts where the first k fields end, and the rest of the layout
      follows it. */
  lemma {:induction false} ConcatField(fields: seq<seq<byte>>, k: nat)
    requires k < |fields|
    ensures |Concat(fields[..k])| + |fields[k]| <= |Concat(fields)|
    ensures Concat(fields)[|Concat(fields[..k])|..] == fields[k] + Concat(fields[k + 1..])
  {
    if k == 0 {
      assert fields[..0] == [] && fields[0..] == fields;
      ConcatAt(fields, 0);
    } else {
      ConcatField(fields[1..], k - 1);
      assert fields[1..][..k - 1] == fields[..k][1..];
      assert fields[1..][k - 1] == fields[k] && fields[1..][k..] == fields[k + 1..];
      assert Concat(fields[..k]) == fields[0] + Concat(fields[1..][..k - 1]);
      var tail := Concat(fields[1..]);
      assert Concat(fields) == fields[0] + tail;
      assert Concat(fields)[|fields[0]|..] == tail;
      assert Concat(fields)[|Concat(fields[..k])|..] == tail[|Concat(fields[1..][..k - 1])|..];
    }
  }
}
