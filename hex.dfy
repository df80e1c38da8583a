/** Lowercase Base16 text, as Go's `%x` verb renders a byte slice: two digits
    per byte, high nibble first, alphabet `0-9a-f`, no separators. */
module Hex {
  import opened Wrappers

  const Digits: string := "0123456789abcdef"

  predicate IsLowerHex(c: char) {
    '0' <= c <= '9' || 'a' <= c <= 'f'
  }

  function DigitOf(n: int): (c: char)
    requires 0 <= n < 16
    ensures IsLowerHex(c)
    ensures ValueOf(c) == n
  {
    Digits[n]
  }

  function ValueOf(c: char): (n: int)
    requires IsLowerHex(c)
    ensures 0 <= n < 16
  {
    if c <= '9' then c as int - '0' as int else c as int - 'a' as int + 10
  }

  /** `fmt.Sprintf("%x", b)` for a byte slice `b`. */
  function Encode(b: seq<byte>): (s: string)
    ensures |s| == 2 * |b|
    ensures forall i :: 0 <= i < |s| ==> IsLowerHex(s[i])
  {
    if b == [] then []
    else [DigitOf(b[0] / 16), DigitOf(b[0] % 16)] + Encode(b[1..])
  }

  /** The inverse reading: pairs of lowercase digits back to bytes; anything
      else (odd length, a character outside `0-9a-f`) is refused. */
  function Decode(s: string): Option<seq<byte>>
  {
    if s == [] then Some([])
    else if |s| == 1 || !IsLowerHex(s[0]) || !IsLowerHex(s[1]) then None
    else
      match Decode(s[2..])
      case None => None
      case Some(rest) => Some([ValueOf(s[0]) * 16 + ValueOf(s[1])] + rest)
  }

  /** Decoding undoes encoding, so the hex run loses nothing of the hash output. */
  lemma {:induction false} DecodeEncode(b: seq<byte>)
    ensures Decode(Encode(b)) == Some(b)
  {
    if b != [] {
      var s := Encode(b);
      assert s[2..] == Encode(b[1..]);
      DecodeEncode(b[1..]);
      assert ValueOf(s[0]) * 16 + ValueOf(s[1]) == b[0];
      assert [b[0]] + b[1..] == b;
    }
  }

  /** Encoding works byte by byte, so it distributes over concatenation. */
  lemma {:induction false} EncodeAppend(a: seq<byte>, b: seq<byte>)
    ensures Encode(a + b) == Encode(a) + Encode(b)
  {
    if a != [] {
      assert (a + b)[1..] == a[1..] + b;
      EncodeAppend(a[1..], b);
    } else {
      assert a + b == b;
    }
  }

  /** Distinct byte strings never share a hex rendering. */
  lemma EncodeInjective(a: seq<byte>, b: seq<byte>)
    requires Encode(a) == Encode(b)
    ensures a == b
  {
    DecodeEncode(a);
    DecodeEncode(b);
  }
}
