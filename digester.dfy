/** The digester: one algorithm bound to one accumulator, and the digest
    string `<algorithm>:<lowercase hex of the hash output>` it renders. */
module Digesters {
  import opened Wrappers
  import opened Hex
  import opened Registry

  /** `fmt.Sprintf("%s:%x", alg, sum)`. */
  function FormatDigest(alg: Algorithm, sum: seq<byte>): (s: string)
    ensures |s| == |alg| + 1 + 2 * |sum|
    ensures s[..|alg|] == alg && s[|alg|] == ':'
    ensures forall i :: |alg| < i < |s| ==> IsLowerHex(s[i])
  {
    alg + ":" + Hex.Encode(sum)
  }

  /** A digest string taken apart again: the algorithm and the hash output. */
  datatype Parsed = Parsed(alg: Algorithm, sum: seq<byte>)

  /** Position of the first `:` in `s`, if any. */
  function FirstColon(s: string): (r: Option<nat>)
    ensures r.Some? ==> r.value < |s| && s[r.value] == ':' && ':' !in s[..r.value]
    ensures r.None? ==> ':' !in s
  {
    if s == [] then None
    else if s[0] == ':' then Some(0)
    else match FirstColon(s[1..])
      case None => None
      case Some(i) => Some(i + 1)
  }

  /** The reading of a digest string that inverts FormatDigest: split at the
      first `:`, then hex-decode the rest. */
  function ParseDigest(s: string): Option<Parsed>
  {
    match FirstColon(s)
    case None => None
    case Some(i) =>
      match Hex.Decode(s[i + 1..])
      case None => None
      case Some(sum) => Some(Parsed(s[..i], sum))
  }

  lemma {:induction false} FirstColonAfter(alg: string, rest: string)
    requires ':' !in alg
    ensures FirstColon(alg + ":" + rest) == Some(|alg|)
  {
    if alg != [] {
      assert (alg + ":" + rest)[1..] == alg[1..] + ":" + rest;
      FirstColonAfter(alg[1..], rest);
    }
  }

  /** The characters of the identifier part of the digest pattern. */
  predicate IsAlgorithmChar(c: char) {
    'a' <= c <= 'z' || '0' <= c <= '9' || c == '+'
  }

  /** A non-empty identifier made of those characters; such a name has no
      colon, so its digest strings can be read back. */
  predicate IsAlgorithmName(alg: string) {
    |alg| > 0 && forall i :: 0 <= i < |alg| ==> IsAlgorithmChar(alg[i])
  }

  /** A digest string is read back into exactly the algorithm and hash output
      it was made from. */
  lemma ParseFormat(alg: Algorithm, sum: seq<byte>)
    requires ':' !in alg
    ensures ParseDigest(FormatDigest(alg, sum)) == Some(Parsed(alg, sum))
  {
    var s := FormatDigest(alg, sum);
    FirstColonAfter(alg, Hex.Encode(sum));
    assert s[|alg| + 1..] == Hex.Encode(sum);
    Hex.DecodeEncode(sum);
  }

  /** Two digest strings are equal only when both the algorithm and the hash
      output are: the hex run holds no colon, so the colon in front of it is
      the last one and fixes where the name ends. */
  lemma FormatInjective(a1: Algorithm, s1: seq<byte>, a2: Algorithm, s2: seq<byte>)
    requires FormatDigest(a1, s1) == FormatDigest(a2, s2)
    ensures a1 == a2 && s1 == s2
  {
    var s := FormatDigest(a1, s1);
    // Both name ends carry a colon, and no position after either is a colon.
    assert s[|a1|] == ':' && s[|a2|] == ':' && !IsLowerHex(':');
    assert |a1| == |a2|;
    assert s == a1 + ":" + Hex.Encode(s1) == a2 + ":" + Hex.Encode(s2);
    assert a1 == s[..|a1|] && a2 == s[..|a2|];
    assert Hex.Encode(s1) == s[|a1| + 1..] == Hex.Encode(s2);
    Hex.EncodeInjective(s1, s2);
  }

  /** The textual shape `^[a-z0-9+]+:[0-9a-f]+$`. */
  predicate MatchesDigestPattern(s: string) {
    exists i :: 0 < i < |s| - 1 && s[i] == ':'
      && (forall j :: 0 <= j < i ==> IsAlgorithmChar(s[j]))
      && (forall j :: i < j < |s| ==> IsLowerHex(s[j]))
  }

  /** Every digest of a well-named algorithm over a non-empty hash output has
      the textual shape above. */
  lemma FormatMatchesPattern(alg: Algorithm, sum: seq<byte>)
    requires IsAlgorithmName(alg) && |sum| > 0
    ensures MatchesDigestPattern(FormatDigest(alg, sum))
  {
  }

  /** All four recognised identifiers are well-named, hence colon-free. */
  lemma RecognisedNames()
    ensures IsAlgorithmName(SHA256) && IsAlgorithmName(SHA384)
    ensures IsAlgorithmName(SHA512) && IsAlgorithmName(TarsumV1SHA256)
    ensures ':' !in SHA256 && ':' !in SHA384 && ':' !in SHA512 && ':' !in TarsumV1SHA256
  {
  }

  /** Every identifier in the registry table is well-named, hence colon-free. */
  lemma TableNames(a: Algorithm)
    requires a in Algorithms
    ensures IsAlgorithmName(a) && ':' !in a
    ensures Algorithms[a].Size() > 0
  {
    RecognisedNames();
  }

  /** Go's `digester`: the algorithm and the accumulator it was created with,
      neither ever replaced. */
  class Digester {
    const alg: Algorithm
    /** Null when the algorithm was not available at creation. */
    const hash: Accumulator?

    /** A live accumulator is the one the registry table names for `alg`, as
        it is for every digester `New` builds. */
    ghost predicate Valid()
      reads this
    {
      hash != null ==> alg in Algorithms && hash.kind == Algorithms[alg]
    }

    constructor (alg: Algorithm, hash: Accumulator?)
      ensures this.alg == alg && this.hash == hash
    {
      this.alg := alg;
      this.hash := hash;
    }

    /** Direct access to the accumulator, for streaming writes. */
    method Hash() returns (h: Accumulator?)
      ensures h == hash
    {
      h := hash;
    }

    /** The digest of what has been written so far: the algorithm name, a
        colon, and two lowercase hex digits per byte of the hash output, which
        read back to that name and output. Requires a live accumulator (with
        none, the Go code dereferences nil). */
    function Digest(c: Crypto): (s: string)
      reads this, hash
      requires hash != null && WellFormed(c)
      ensures |s| == |alg| + 1 + 2 * hash.kind.Size()
      ensures s[..|alg| + 1] == alg + ":"
      ensures ':' !in alg ==> ParseDigest(s) == Some(Parsed(alg, c.sum(hash.kind, hash.written)))
      ensures Valid() ==> MatchesDigestPattern(s)
      ensures Valid() ==> ParseDigest(s) == Some(Parsed(alg, c.sum(Algorithms[alg], hash.written)))
    {
      var s := FormatDigest(alg, hash.Sum(c));
      if ':' in alg then s
      else
        ParseFormat(alg, hash.Sum(c));
        if alg in Algorithms then TableNames(alg); FormatMatchesPattern(alg, hash.Sum(c)); s
        else s
    }
  }

  /** `Algorithm.New`: never checks availability itself; the digester keeps the
      algorithm unchanged and whatever `Hash` gave, possibly null. */
  method New(c: Crypto, a: Algorithm) returns (d: Digester)
    ensures fresh(d) && d.alg == a && d.Valid()
    ensures d.hash == null <==> !Available(c, a)
    ensures d.hash != null ==> fresh(d.hash) && a in Algorithms && d.hash.kind == Algorithms[a] && d.hash.written == []
  {
    var h := Registry.Hash(c, a);
    d := new Digester(a, h);
  }
}
