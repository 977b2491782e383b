/**
 * The GZIP helpers used by the cache entry: the magic-number test of section
 * 2.3.1 of RFC 1952, the double-compression guard, the "empty payload" test and
 * the chunked copy loop of `ungzip`.
 *
 * Compression and decompression themselves are foreign code
 * (java.util.zip.GZIPOutputStream / GZIPInputStream). They enter the model as
 * parameters: `deflate` maps raw bytes to the compressed stream, and `inflate`
 * maps a compressed stream to the script of outcomes that successive
 * `GZIPInputStream.read` calls produce on it.
 */
module GZIPUtils {
  import opened Common

  /** The read-chunk size, 4196 in the source (not 4096). */
  const FOUR_KB: nat := 4196

  /** ID1 and ID2 of a GZIP member header: 31 and -117 as Java bytes. */
  const GZIP_ID1_BYTE: byte := 0x1f
  const GZIP_ID2_BYTE: byte := 0x8b

  /** A 10-byte header, a 2-byte empty deflate block and an 8-byte trailer. */
  const EMPTY_GZIPPED_CONTENT_SIZE: nat := 20

  /** `isGzipped`: the candidate starts with the two GZIP magic bytes; never fails. */
  predicate IsGzipped(candidate: Option<seq<byte>>)
  {
    match candidate
    case None => false
    case Some(bytes) => |bytes| >= 2 && bytes[0] == GZIP_ID1_BYTE && bytes[1] == GZIP_ID2_BYTE
  }

  /** `shouldGzippedBodyBeZero`: the compressed body has exactly the empty-payload size. */
  predicate ShouldGzippedBodyBeZero(compressed: seq<byte>)
  {
    |compressed| == EMPTY_GZIPPED_CONTENT_SIZE
  }

  /**
   * `gzip`: refuses input that already carries the magic bytes (IOException),
   * fails on `null` (the stream write dereferences it), and otherwise returns
   * what the foreign compressor produces.
   */
  function Gzip(ungzipped: Option<seq<byte>>, deflate: seq<byte> -> seq<byte>): (r: Result<seq<byte>>)
    ensures r == Err(IO) <==> IsGzipped(ungzipped)
    ensures r == Err(NullPointer) <==> ungzipped.None?
    ensures r.Ok? <==> ungzipped.Some? && !IsGzipped(ungzipped)
    ensures r.Ok? ==> r.value == deflate(ungzipped.value)
  {
    if IsGzipped(ungzipped) then Err(IO)
    else if ungzipped.None? then Err(NullPointer)
    else Ok(deflate(ungzipped.value))
  }

  /** What one `GZIPInputStream.read(buffer, 0, FOUR_KB)` call does. */
  datatype ReadOutcome =
    | Chunk(bytes: seq<byte>)   // returns bytes.Length and fills the buffer's front
    | EndOfStream               // returns -1
    | Corrupt                   // throws IOException (a malformed stream)

  /** The foreign stream honours `read`'s contract: no chunk exceeds the requested length. */
  predicate ChunksFit(script: seq<ReadOutcome>)
  {
    forall k :: 0 <= k < |script| && script[k].Chunk? ==> |script[k].bytes| <= FOUR_KB
  }

  /** `prefix` put in front of a successful result; failures pass through. */
  function Prepend(prefix: seq<byte>, r: Result<seq<byte>>): Result<seq<byte>>
  {
    if r.Ok? then Ok(prefix + r.value) else r
  }

  /** Prepending two byte runs one after the other prepends their concatenation. */
  lemma PrependTwice(a: seq<byte>, b: seq<byte>, r: Result<seq<byte>>)
    ensures Prepend(a, Prepend(b, r)) == Prepend(a + b, r)
  {
    if r.Ok? {
      assert a + (b + r.value) == (a + b) + r.value;
    }
  }

  /**
   * The bytes `ungzip` collects from a read script: every chunk, in order, up
   * to the first end-of-stream (a script that runs out also reads as -1), or
   * an IOException at the first corrupt read.
   */
  function Inflated(script: seq<ReadOutcome>): (r: Result<seq<byte>>)
    ensures r.Err? ==> r.error == IO
  {
    if script == [] then Ok([])
    else match script[0]
      case EndOfStream => Ok([])
      case Corrupt => Err(IO)
      case Chunk(bytes) => Prepend(bytes, Inflated(script[1..]))
  }

  /** The collected bytes are the concatenation of every chunk read before the end. */
  lemma {:induction false} InflatedIsConcatenation(script: seq<ReadOutcome>, k: nat)
    requires k <= |script|
    requires forall j :: 0 <= j < k ==> script[j].Chunk?
    requires k == |script| || script[k].EndOfStream?
    ensures Inflated(script) == Ok(Concat(script[..k]))
  {
    if k > 0 {
      InflatedIsConcatenation(script[1..], k - 1);
      assert script[1..][..k - 1] == script[..k][1..];
    }
  }

  /** A corrupt read anywhere before the end of the stream makes the whole result an IOException. */
  lemma {:induction false} CorruptReadFails(script: seq<ReadOutcome>, k: nat)
    requires k < |script| && script[k].Corrupt?
    requires forall j :: 0 <= j < k ==> script[j].Chunk?
    ensures Inflated(script) == Err(IO)
  {
    if k > 0 {
      CorruptReadFails(script[1..], k - 1);
    }
  }

  /** The concatenation of the bytes of a run of chunks. */
  function Concat(chunks: seq<ReadOutcome>): seq<byte>
    requires forall j :: 0 <= j < |chunks| ==> chunks[j].Chunk?
  {
    if chunks == [] then [] else chunks[0].bytes + Concat(chunks[1..])
  }

  /**
   * `ungzip`: refills one FOUR_KB buffer from the decompressing stream and
   * appends what each read returned, until a read returns -1.
   */
  method Ungzip(gzipped: Option<seq<byte>>, inflate: seq<byte> -> seq<ReadOutcome>) returns (r: Result<seq<byte>>)
    requires gzipped.Some? ==> ChunksFit(inflate(gzipped.value))
    ensures gzipped.None? ==> r == Err(NullPointer)
    ensures gzipped.Some? ==> r == Inflated(inflate(gzipped.value))
  {
    if gzipped.None? {
      return Err(NullPointer);
    }
    var script := inflate(gzipped.value);
    var uncompressed: seq<byte> := [];
    var buffer := new byte[FOUR_KB];
    var bytesRead := 0;
    var k := 0;  // how many reads the stream has answered
    assert script[k..] == script;
    assert Prepend([], Inflated(script)) == Inflated(script) by {
      if Inflated(script).Ok? { assert [] + Inflated(script).value == Inflated(script).value; }
    }
    while bytesRead != -1
      invariant 0 <= k <= |script|
      invariant bytesRead != -1 ==> Prepend(uncompressed, Inflated(script[k..])) == Inflated(script)
      invariant bytesRead == -1 ==> Ok(uncompressed) == Inflated(script)
      decreases |script| - k, bytesRead + 1
    {
      // bytesRead = gzip.read(buffer, 0, FOUR_KB)
      if k == |script| || script[k].EndOfStream? {
        assert Inflated(script[k..]) == Ok([]);
        assert uncompressed + [] == uncompressed;
        bytesRead := -1;
      } else if script[k].Corrupt? {
        return Err(IO);
      } else {
        var chunk := script[k].bytes;
        forall j | 0 <= j < |chunk| {
          buffer[j] := chunk[j];
        }
        bytesRead := |chunk|;
        assert buffer[..bytesRead] == chunk;
        assert script[k..][1..] == script[k + 1..];
        PrependTwice(uncompressed, chunk, Inflated(script[k + 1..]));
        k := k + 1;
      }
      if bytesRead != -1 {
        uncompressed := uncompressed + buffer[..bytesRead];
      }
    }
    return Ok(uncompressed);
  }
}
