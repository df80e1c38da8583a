/** The manifest digest: digest the signed payload of a pretty-signature
    envelope, fall back to the raw bytes when the parser reports a missing
    signature key, and hand any other parse error back. */
module Manifest {
  import opened Wrappers
  import opened Hex
  import opened Registry
  import opened Digesters
  import opened Stream

  /** The decoded envelope the signature library hands back; what it holds is
      the library's business, and only its payload is asked for. */
  datatype JsonSignature = JsonSignature(encodedPayload: string, signatures: seq<string>)

  /** The signature library, which this component only calls:
      `parsePrettySignature(data, key)` and a parsed envelope's `payload()`. */
  datatype Libtrust = Libtrust(
    parsePrettySignature: (seq<byte>, string) -> Result<JsonSignature, Error>,
    payload: JsonSignature -> Result<seq<byte>, Error>)

  /** The JSON key under which the envelope carries its signatures. */
  const SignaturesKey: string := "signatures"

  /** The error text that marks bytes carrying no envelope at all. */
  const MissingSignatureKey: string := "missing signature key"

  ghost predicate OccursAt(s: string, sub: string, i: int) {
    0 <= i && i + |sub| <= |s| && s[i..i + |sub|] == sub
  }

  /** `strings.Contains(s, sub)`: `sub` occurs somewhere in `s` (the empty
      string occurs everywhere). */
  function Contains(s: string, sub: string): (r: bool)
    ensures r <==> exists i :: OccursAt(s, sub, i)
    decreases |s|
  {
    if |sub| > |s| then false
    else if s[..|sub|] == sub then assert OccursAt(s, sub, 0); true
    else
      assert forall i :: OccursAt(s[1..], sub, i) <==> OccursAt(s, sub, i + 1) by {
        forall i ensures OccursAt(s[1..], sub, i) <==> OccursAt(s, sub, i + 1) {
          if 0 <= i && i + |sub| <= |s| - 1 {
            assert s[1..][i..i + |sub|] == s[i + 1..i + 1 + |sub|];
          }
        }
      }
      assert !OccursAt(s, sub, 0);
      assert forall i :: OccursAt(s, sub, i) ==> i == 0 || OccursAt(s[1..], sub, i - 1);
      Contains(s[1..], sub)
  }

  /** `Payload`: parse the envelope (signatures under the `signatures` key)
      and resolve its payload; a parse error comes back unchanged. */
  function Payload(t: Libtrust, data: seq<byte>): (r: Result<seq<byte>, Error>)
    ensures t.parsePrettySignature(data, SignaturesKey).Failure? ==> r == Failure(t.parsePrettySignature(data, SignaturesKey).error)
    ensures t.parsePrettySignature(data, SignaturesKey).Success? ==> r == t.payload(t.parsePrettySignature(data, SignaturesKey).value)
  {
    match t.parsePrettySignature(data, SignaturesKey)
    case Failure(e) => Failure(e)
    case Success(jsig) => t.payload(jsig)
  }

  /** What `DigestManifest` yields: the canonical digest of the payload when
      one can be extracted, of the raw bytes when extraction fails for lack of
      a signature key, and otherwise the extraction error itself. Reading the
      chosen bytes back never fails, so that error is the only failure. */
  function ManifestDigest(c: Crypto, t: Libtrust, data: seq<byte>): (r: Result<string, Error>)
    requires WellFormed(c)
    ensures Payload(t, data).Success? ==> r == Success(CanonicalDigest(c, Payload(t, data).value))
    ensures Payload(t, data).Failure? && Contains(Payload(t, data).error.message, MissingSignatureKey)
            ==> r == Success(CanonicalDigest(c, data))
    ensures Payload(t, data).Failure? && !Contains(Payload(t, data).error.message, MissingSignatureKey)
            ==> r == Failure(Payload(t, data).error)
    ensures r.Failure? ==> Payload(t, data) == Failure(r.error)
  {
    match Payload(t, data)
    case Success(p) =>
      BytesReaderDigest(c, p);
      StreamDigest(c, BytesReader(p))
    case Failure(e) =>
      if !Contains(e.message, MissingSignatureKey) then Failure(e)
      else
        BytesReaderDigest(c, data);
        StreamDigest(c, BytesReader(data))
  }

  /** `DigestManifest`: resolve the payload, apply the fallback rule, then
      stream the chosen bytes through `FromReader`. */
  method DigestManifest(c: Crypto, t: Libtrust, data: seq<byte>) returns (r: Result<string, Error>)
    requires WellFormed(c) && c.available(CryptoSHA256)
    ensures r == ManifestDigest(c, t, data)
  {
    var p: seq<byte>;
    var resolved := Payload(t, data);
    if resolved.Failure? {
      if !Contains(resolved.error.message, MissingSignatureKey) {
        return Failure(resolved.error);
      }
      p := data;
    } else {
      p := resolved.value;
    }
    // digest.go checks FromReader's error and returns ("", err) itself; that
    // is the pair FromReader already returned, so its result is passed on.
    r := FromReader(c, BytesReader(p));
  }

  /** Every manifest digest is a canonical `sha256:` digest, of either the
      extracted payload or the raw bytes. */
  lemma ManifestDigestShape(c: Crypto, t: Libtrust, data: seq<byte>)
    requires WellFormed(c)
    requires ManifestDigest(c, t, data).Success?
    ensures ManifestDigest(c, t, data).value[..7] == "sha256:"
    ensures var sum := c.sum(CryptoSHA256, if Payload(t, data).Success? then Payload(t, data).value else data);
            ParseDigest(ManifestDigest(c, t, data).value) == Some(Parsed(SHA256, sum))
  {
  }

  /** A signed manifest and its bare payload digest alike, provided the bare
      payload is refused by the parser for lack of a signature key. */
  lemma SignedAndBareAgree(c: Crypto, t: Libtrust, envelope: seq<byte>, payload: seq<byte>)
    requires WellFormed(c)
    requires Payload(t, envelope) == Success(payload)
    requires Payload(t, payload).Failure? && Contains(Payload(t, payload).error.message, MissingSignatureKey)
    ensures ManifestDigest(c, t, envelope) == ManifestDigest(c, t, payload)
    ensures ManifestDigest(c, t, envelope) == StreamDigest(c, BytesReader(payload))
  {
  }

  /** The fallback is decided by the text of the error alone: any message that
      contains the marker, wherever it sits, selects the raw bytes. */
  lemma FallbackOnMarker(c: Crypto, t: Libtrust, data: seq<byte>, before: string, after: string)
    requires WellFormed(c)
    requires Payload(t, data) == Failure(Error(before + MissingSignatureKey + after))
    ensures ManifestDigest(c, t, data) == StreamDigest(c, BytesReader(data))
  {
    var m := before + MissingSignatureKey + after;
    assert m[|before|..|before| + |MissingSignatureKey|] == MissingSignatureKey;
    assert OccursAt(m, MissingSignatureKey, |before|);
    BytesReaderDigest(c, data);
  }
}
