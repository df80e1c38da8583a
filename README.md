# Content digests for manifests and streams

A model of the `handler` package's digest component (`handler/digest.go`).
The component turns bytes into an algorithm-qualified content identity:
`<algorithm>:<lowercase hex of the hash output>`. It has four parts:

- **Algorithm registry** (`Registry`). An algorithm is any string. The table
  backs `sha256`, `sha384` and `sha512` with a platform hash. `tarsum+v1+sha256`
  is recognised for verification only and has no table entry. `Available` checks
  two things: the identifier must be in the table, and the backing hash must
  report itself available. `Hash` hands out a fresh accumulator, or null.
- **Digester** (`Digesters`). A `Digester` object binds one algorithm to one
  mutable `Accumulator`, which is Go's `hash.Hash`. The accumulator's state is
  the sequence of bytes written so far. `Digest` renders
  `alg + ":" + hex(sum)`. `ParseDigest` is the inverse reading, and
  `ParseFormat` proves it recovers both parts.
- **Stream digest** (`Stream`). A reader is a sequence of chunks that ends
  either at end of input or with an error. `FromReader` copies the chunks one
  by one into a canonical (`sha256`) digester. A loop invariant ties the
  accumulator to the bytes read so far. The method is proved equal to the
  specification function `StreamDigest`.
- **Manifest digest** (`Manifest`). `DigestManifest` extracts the signed
  payload. If the error text contains `missing signature key`, it falls back to
  the raw bytes. Any other error is returned unchanged. The method is proved
  equal to `ManifestDigest`, whose contract states the three cases.

Foreign code enters as values of two records, so nothing is left without a
body:

- `Registry.Crypto` holds `crypto.Hash.Available()` and the hash output of an
  accumulator fed some bytes. `WellFormed` fixes the output length at 32, 48
  and 64 bytes.
- `Manifest.Libtrust` holds `libtrust.ParsePrettySignature` and
  `JSONSignature.Payload()`.

Hex is lowercase Base16, as Go's `%x` prints a byte slice: the alphabet of
section 8 of RFC 4648, in lower case, two digits per byte.

The fallback matches the substring `missing signature key` anywhere in the
error text (`handler/digest.go:115`); `Manifest.Contains` models that
substring match exactly.

## Model

| member | source | states |
|---|---|---|
| `Registry.Available` | handler/digest.go:39-56 | true exactly when the identifier is `sha256`, `sha384` or `sha512` and that hash reports itself available; false for every other string, `tarsum+v1+sha256` included |
| `Registry.RegistryContents` | handler/digest.go:20-43 | the table's keys are exactly the three SHA-2 identifiers, tarsum is not a key, and `Canonical` maps to SHA-256 |
| `Registry.Hash` | handler/digest.go:65-71 | null exactly when `Available` is false; otherwise a fresh, empty accumulator of the table's hash for that identifier |
| `Registry.Accumulator.constructor` | handler/digest.go:70 | a new accumulator of the given hash has been written nothing |
| `Registry.Accumulator.Write` | handler/digest.go:95 | a write appends the whole chunk to what the accumulator has seen |
| `Registry.Accumulator.Sum` | handler/digest.go:89 | the hash output of everything written so far has the hash's fixed length and leaves the accumulator unchanged |
| `Digesters.New` | handler/digest.go:58-63 | does not check availability: the digester keeps the algorithm unchanged, and its accumulator is null exactly when the algorithm is unavailable, otherwise fresh, empty and of the hash the table names for the algorithm (`Valid`) |
| `Digesters.Digester.constructor` | handler/digest.go:59-62 | the digester holds the given algorithm and accumulator |
| `Digesters.Digester.Hash` | handler/digest.go:84-86 | gives direct access to the very accumulator the digester owns |
| `Digesters.Digester.Digest` | handler/digest.go:88-90 | the string is the algorithm, `:`, and two characters per output byte; for a colon-free algorithm it reads back to that algorithm and the hash of all bytes written; for a digester built by `New` it matches `^[a-z0-9+]+:[0-9a-f]+$` and reads back to the algorithm and the output of the hash the table names for it |
| `Digesters.FormatDigest` | handler/digest.go:89 | `%s:%x` has length name + 1 + twice the output length, starts with the name and a colon, and is lowercase hex after the colon |
| `Digesters.ParseFormat` | handler/digest.go:88-90 | splitting a digest at its first colon and hex-decoding the rest recovers the algorithm and the hash output exactly |
| `Digesters.FormatInjective` | handler/digest.go:88-90 | two digest strings are equal only when both the names and the hash outputs are equal, for any names |
| `Digesters.FormatMatchesPattern` | handler/digest.go:88-90 | a digest of a name over `[a-z0-9+]` and a non-empty output matches `^[a-z0-9+]+:[0-9a-f]+$` |
| `Digesters.RecognisedNames` | handler/digest.go:21-24 | all four recognised identifiers are over `[a-z0-9+]` and contain no colon |
| `Digesters.TableNames` | handler/digest.go:39-43 | every key of the registry table is over `[a-z0-9+]`, has no colon, and names a hash with a non-empty output |
| `Hex.Encode` | handler/digest.go:89 | `%x` of a byte slice has exactly two characters per byte, all in `[0-9a-f]` |
| `Hex.DecodeEncode` | handler/digest.go:89 | hex decoding undoes `%x` encoding |
| `Hex.EncodeAppend` | handler/digest.go:89 | `%x` works byte by byte, so it distributes over concatenation |
| `Hex.EncodeInjective` | handler/digest.go:89 | distinct byte slices never share a hex rendering |
| `Stream.CanonicalDigest` | handler/digest.go:29 | a canonical digest is `sha256:` followed by 64 lowercase hex digits, and reads back to `sha256` and the SHA-256 output |
| `Stream.StreamDigest` | handler/digest.go:92-100 | fails exactly when the reader fails, with the reader's own error, never a digest of the prefix already read; otherwise a 71-character string that starts with `sha256:` |
| `Stream.FromReader` | handler/digest.go:92-100 | copying the chunks into a canonical digester and then rendering it equals `StreamDigest` |
| `Stream.FlattenAppend` | handler/digest.go:95 | the bytes of two runs of chunks are the bytes of the first followed by those of the second |
| `Stream.SplitChunk` | handler/digest.go:95 | splitting any chunk of the stream in two does not change the result |
| `Stream.Coalesce` | handler/digest.go:95 | any reader gives the result of one reader that hands over the same bytes in a single chunk and ends the same way |
| `Stream.ChunkingInvariant` | handler/digest.go:95 | two readers that yield the same bytes and end the same way give the same result |
| `Stream.BytesReaderDigest` | handler/digest.go:122 | a reader over a byte slice never fails and gives the canonical digest of that slice |
| `Manifest.Contains` | handler/digest.go:115 | `strings.Contains` is true exactly when the substring occurs at some position |
| `Manifest.Payload` | handler/digest.go:102-110 | a parse failure comes back as the same error; after a successful parse the result is the envelope's own payload outcome |
| `Manifest.ManifestDigest` | handler/digest.go:112-128 | the canonical digest of the payload when extraction succeeds, or of the raw bytes when the error text contains `missing signature key`; otherwise the extraction error itself, which is the only way the result can fail |
| `Manifest.DigestManifest` | handler/digest.go:112-128 | resolving the payload, applying the fallback and streaming the chosen bytes equals `ManifestDigest` |
| `Manifest.ManifestDigestShape` | handler/digest.go:112-128 | every successful manifest digest starts with `sha256:` and reads back to the SHA-256 output of the payload, or of the raw bytes when there is no payload |
| `Manifest.SignedAndBareAgree` | handler/digest.go:113-127 | a signed manifest has the same digest as its bare payload when the parser refuses the bare payload for lack of a signature key, and both equal the stream digest of the payload |
| `Manifest.FallbackOnMarker` | handler/digest.go:114-120 | any error text that has the marker somewhere in it selects the raw bytes |

## Left out

- The SHA-256/384/512 computations (`crypto.Hash.New`, `Sum`) and `crypto.Hash.Available()` are platform code. They are fields of `Registry.Crypto`, and the model assumes only the fixed output length per hash.
- `libtrust.ParsePrettySignature` and `JSONSignature.Payload()` are an external library. They are fields of `Manifest.Libtrust`. `JsonSignature`'s fields stand in for the library's envelope and are never inspected.
- `io.Reader` and `io.Copy` mechanics (buffer sizes, short reads) are not modelled. A reader is a sequence of chunks and how it ends. Writes to a platform hash never fail, so the write-error path of `io.Copy` is not modelled.
- `bytes.NewReader(p)` is modelled as one chunk holding `p` followed by end of input, which is how its `WriteTo` hands data to `io.Copy`.
- The nil dereference when a digester built for an unavailable algorithm is written to or rendered is not modelled. `Digesters.Digester.Digest` requires a live accumulator. `Stream.FromReader` and `Manifest.DigestManifest` require SHA-256 to be available.
- The digest of the empty input is not proved equal to the SHA-256 empty-input constant. The hash is abstract, and unfolding 32 bytes of hex rendering costs more than the verifier allows.
- "A signed manifest's digest differs from the digest of its envelope bytes" is not stated. It depends on collision resistance of the hash, which an abstract hash does not have.
- Go's `Digester` interface has one implementation, so it is modelled directly by the `Digesters.Digester` class.
- Concurrency is left out: the component has none of its own.
