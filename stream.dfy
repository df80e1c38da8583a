/** The stream digest: drain a reader into a digester for the canonical
    algorithm and render the result, or pass the read error back. */
module Stream {
  import opened Wrappers
  import opened Hex
  import opened Registry
  import opened Digesters

  /** How a reader stops: cleanly at end of input, or with an error. */
  datatype ReadEnd = Eof | ReadError(err: Error)

  /** A reader as the chunks it yields, in order, and how it stops. */
  datatype Reader = Reader(chunks: seq<seq<byte>>, end: ReadEnd)

  /** `bytes.NewReader(b)`: its `WriteTo` hands the whole slice over in one
      write and then reports end of input. */
  function BytesReader(b: seq<byte>): Reader {
    Reader([b], Eof)
  }

  /** All bytes a reader yields, in order. */
  function Flatten(chunks: seq<seq<byte>>): seq<byte> {
    if chunks == [] then [] else Flatten(chunks[..|chunks| - 1]) + chunks[|chunks| - 1]
  }

  lemma {:induction false} FlattenAppend(a: seq<seq<byte>>, b: seq<seq<byte>>)
    ensures Flatten(a + b) == Flatten(a) + Flatten(b)
    decreases |b|
  {
    if b != [] {
      var b' := b[..|b| - 1];
      assert (a + b)[..|a + b| - 1] == a + b';
      assert (a + b)[|a + b| - 1] == b[|b| - 1];
      FlattenAppend(a, b');
      assert Flatten(a + b) == Flatten(a + b') + b[|b| - 1];
      assert Flatten(b) == Flatten(b') + b[|b| - 1];
    } else {
      assert a + b == a;
    }
  }

  lemma FlattenSingle(b: seq<byte>)
    ensures Flatten([b]) == b
  {
    assert [b][..0] == [];
  }

  /** The canonical digest of a byte string: `sha256:` and 64 hex digits. */
  function CanonicalDigest(c: Crypto, data: seq<byte>): (s: string)
    requires WellFormed(c)
    ensures |s| == 7 + 64
    ensures s[..7] == "sha256:"
    ensures forall i :: 7 <= i < |s| ==> IsLowerHex(s[i])
    ensures ParseDigest(s) == Some(Parsed(Canonical, c.sum(CryptoSHA256, data)))
  {
    var sum := c.sum(CryptoSHA256, data);
    ParseFormat(Canonical, sum);
    FormatDigest(Canonical, sum)
  }

  /** What `FromReader` yields: the read error itself when the reader fails,
      never a digest of the bytes consumed before it; otherwise the canonical
      digest of everything read. */
  function StreamDigest(c: Crypto, rd: Reader): (r: Result<string, Error>)
    requires WellFormed(c)
    ensures r.Failure? <==> rd.end.ReadError?
    ensures rd.end.ReadError? ==> r.error == rd.end.err
    ensures r.Success? ==> |r.value| == 71 && r.value[..7] == "sha256:"
  {
    match rd.end
    case ReadError(e) => Failure(e)
    case Eof => Success(CanonicalDigest(c, Flatten(rd.chunks)))
  }

  /** `FromReader`: a canonical digester, `io.Copy` of the reader into its
      accumulator chunk by chunk, then either the copy's error or the digest.
      Requires SHA-256 to be available, since with none digest.go writes to
      a nil accumulator. */
  method FromReader(c: Crypto, rd: Reader) returns (r: Result<string, Error>)
    requires WellFormed(c) && c.available(CryptoSHA256)
    ensures r == StreamDigest(c, rd)
  {
    var d := New(c, Canonical);
    var h := d.Hash();
    var i := 0;
    while i < |rd.chunks|
      invariant 0 <= i <= |rd.chunks|
      invariant h == d.hash && h != null && fresh(h)
      invariant h.kind == CryptoSHA256
      invariant h.written == Flatten(rd.chunks[..i])
    {
      assert rd.chunks[..i + 1][..i] == rd.chunks[..i];
      h.Write(rd.chunks[i]);
      i := i + 1;
    }
    if rd.end.ReadError? {
      return Failure(rd.end.err);
    }
    assert rd.chunks[..i] == rd.chunks;
    r := Success(d.Digest(c));
  }

  /** Chunking does not matter: splitting any one chunk in two yields the
      same result. */
  lemma SplitChunk(c: Crypto, rd: Reader, i: nat, k: nat)
    requires WellFormed(c)
    requires i < |rd.chunks| && k <= |rd.chunks[i]|
    ensures StreamDigest(c, Reader(rd.chunks[..i] + [rd.chunks[i][..k], rd.chunks[i][k..]] + rd.chunks[i + 1..], rd.end))
         == StreamDigest(c, rd)
  {
    var cs := rd.chunks;
    var x := cs[i];
    FlattenAppend(cs[..i] + [x[..k], x[k..]], cs[i + 1..]);
    FlattenAppend(cs[..i], [x[..k], x[k..]]);
    FlattenAppend([x[..k]], [x[k..]]);
    FlattenAppend(cs[..i] + [x], cs[i + 1..]);
    FlattenAppend(cs[..i], [x]);
    assert Flatten([x[..k]]) == x[..k];
    assert Flatten([x[k..]]) == x[k..];
    assert Flatten([x]) == x;
    assert x[..k] + x[k..] == x;
    assert cs[..i] + [x] + cs[i + 1..] == cs;
  }

  /** Chunking does not matter: any reader gives what one reader handing over
      the same bytes in a single chunk gives. */
  lemma Coalesce(c: Crypto, rd: Reader)
    requires WellFormed(c)
    ensures StreamDigest(c, rd) == StreamDigest(c, Reader([Flatten(rd.chunks)], rd.end))
  {
    FlattenSingle(Flatten(rd.chunks));
  }

  /** Two readers that yield the same bytes and stop the same way give the same
      result, however they chunk them. */
  lemma ChunkingInvariant(c: Crypto, rd1: Reader, rd2: Reader)
    requires WellFormed(c)
    requires Flatten(rd1.chunks) == Flatten(rd2.chunks) && rd1.end == rd2.end
    ensures StreamDigest(c, rd1) == StreamDigest(c, rd2)
  {
  }

  /** A byte reader never fails, and its digest is that of its bytes. */
  lemma BytesReaderDigest(c: Crypto, b: seq<byte>)
    requires WellFormed(c)
    ensures StreamDigest(c, BytesReader(b)) == Success(CanonicalDigest(c, b))
  {
    FlattenSingle(b);
  }
}
