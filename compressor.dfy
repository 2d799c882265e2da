/** The compressor package: the wire tags and the fixed registry that maps
    each tag to its compressor.  The compressors themselves (gzip, snappy,
    zlib and the identity) are not looked inside: Rpc.Plugins carries their
    Compress / Decompress as opaque functions of the algorithm. */
module Compressor {
  import opened Errors
  import opened Binary

  /** compressor.CompressType is a uint16. */
  type CompressType = u16

  const Raw: CompressType := 0
  const Gzip: CompressType := 1
  const Snappy: CompressType := 2
  const Zlib: CompressType := 3

  /** The compressor values the registry holds. */
  datatype Algorithm = RawCompressor | GzipCompressor | SnappyCompressor | ZlibCompressor

  /** compressor.Compressors: a map literal that no code ever writes to. */
  const Compressors: map<CompressType, Algorithm> :=
    map[Raw := RawCompressor, Gzip := GzipCompressor, Snappy := SnappyCompressor, Zlib := ZlibCompressor]

  /** The tag an algorithm is registered under. */
  function TagOf(a: Algorithm): CompressType {
    match a
    case RawCompressor => Raw
    case GzipCompressor => Gzip
    case SnappyCompressor => Snappy
    case ZlibCompressor => Zlib
  }

  /** `c, ok := compressor.Compressors[t]`: present exactly for the four
      built-in tags, and then the algorithm registered under t. */
  function Lookup(t: CompressType): (r: Option<Algorithm>)
    ensures r.Some? <==> t in {Raw, Gzip, Snappy, Zlib}
    ensures r.Some? ==> TagOf(r.value) == t
  {
    if t in Compressors then Some(Compressors[t]) else None
  }

  /** The registry holds exactly the four tags 0..3, each algorithm under its
      own tag, so the tag on the wire identifies the algorithm. */
  lemma RegistryIsFixed()
    ensures Compressors.Keys == {0, 1, 2, 3}
    ensures forall a: Algorithm :: Lookup(TagOf(a)) == Some(a)
  {
  }
}
