/** The algorithm registry: a closed set of identifiers, the table that backs
    three of them with a platform hash, the two-step availability check, and
    the mutable hash accumulator that a digester owns. */
module Registry {
  import opened Wrappers

  /** An algorithm names both the hash and the string encoding of its output.
      As in the Go code it is any string; only some strings are recognised. */
  type Algorithm = string

  const SHA256: Algorithm := "sha256"
  const SHA384: Algorithm := "sha384"
  const SHA512: Algorithm := "sha512"
  /** Recognised for verifying digests made elsewhere; nothing here computes it. */
  const TarsumV1SHA256: Algorithm := "tarsum+v1+sha256"

  /** The algorithm every new digest is produced with. */
  const Canonical: Algorithm := SHA256

  /** The platform hash functions the table points at (Go's `crypto.Hash`). */
  datatype CryptoHash = CryptoSHA256 | CryptoSHA384 | CryptoSHA512 {
    /** Output length in bytes, fixed per hash by FIPS 180-4. */
    function Size(): nat {
      match this
      case CryptoSHA256 => 32
      case CryptoSHA384 => 48
      case CryptoSHA512 => 64
    }
  }

  /** The platform's cryptographic library, which this component only calls:
      `available(h)` is `h.Available()` (is the implementation linked in) and
      `sum(h, data)` is what an accumulator of `h` fed `data` reports. */
  datatype Crypto = Crypto(available: CryptoHash -> bool, sum: (CryptoHash, seq<byte>) -> seq<byte>)

  /** What the component relies on from the platform: each hash has its fixed
      output length. */
  ghost predicate WellFormed(c: Crypto) {
    forall h, data :: |c.sum(h, data)| == h.Size()
  }

  /** The registry table. The verification-only tarsum identifier is
      deliberately absent. */
  const Algorithms: map<Algorithm, CryptoHash> :=
    map[SHA256 := CryptoSHA256, SHA384 := CryptoSHA384, SHA512 := CryptoSHA512]

  /** True exactly when the identifier is in the table and its backing hash
      reports itself available. */
  function Available(c: Crypto, a: Algorithm): (r: bool)
    ensures r <==> || (a == SHA256 && c.available(CryptoSHA256))
                   || (a == SHA384 && c.available(CryptoSHA384))
                   || (a == SHA512 && c.available(CryptoSHA512))
    ensures a == TarsumV1SHA256 ==> !r
  {
    if a !in Algorithms then false
    else c.available(Algorithms[a])
  }

  /** A live hash accumulator (Go's `hash.Hash`): it only grows. */
  class Accumulator {
    const kind: CryptoHash
    /** Every byte written so far, in order. */
    var written: seq<byte>

    constructor (kind: CryptoHash)
      ensures this.kind == kind && written == []
    {
      this.kind := kind;
      written := [];
    }

    /** `Write` on a platform hash never fails and accepts the whole chunk. */
    method Write(chunk: seq<byte>)
      modifies this
      ensures written == old(written) + chunk
    {
      written := written + chunk;
    }

    /** `Sum(nil)`: the hash of everything written so far; it does not change
        the accumulator, so asking twice gives the same answer. */
    function Sum(c: Crypto): (out: seq<byte>)
      reads this
      requires WellFormed(c)
      ensures |out| == kind.Size()
    {
      c.sum(kind, written)
    }
  }

  /** `Algorithm.Hash`: a fresh, empty accumulator for an available algorithm,
      and null (not an error) for any other identifier. */
  method Hash(c: Crypto, a: Algorithm) returns (h: Accumulator?)
    ensures h == null <==> !Available(c, a)
    ensures h != null ==> fresh(h) && a in Algorithms && h.kind == Algorithms[a] && h.written == []
  {
    if !Available(c, a) {
      return null;
    }
    h := new Accumulator(Algorithms[a]);
  }

  /** The identifiers that can compute a digest are exactly the three SHA-2
      ones, and each maps to the hash of the same name. */
  lemma RegistryContents()
    ensures Algorithms.Keys == {SHA256, SHA384, SHA512}
    ensures TarsumV1SHA256 !in Algorithms
    ensures Algorithms[Canonical] == CryptoSHA256
  {
  }
}
