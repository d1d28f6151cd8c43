/** Lower-case hexadecimal encoding of bytes, as the `hex` crate's `encode`
    produces it, with its inverse. */
module Hex {
  import opened Base

  predicate IsHexChar(c: char) {
    '0' <= c <= '9' || 'a' <= c <= 'f'
  }

  predicate AllHex(s: string) {
    forall i :: 0 <= i < |s| ==> IsHexChar(s[i])
  }

  function NibbleChar(n: nat): (c: char)
    requires n < 16
    ensures IsHexChar(c)
  {
    if n < 10 then (('0' as int) + n) as char else (('a' as int) + n - 10) as char
  }

  function NibbleValue(c: char): (n: nat)
    requires IsHexChar(c)
    ensures n < 16
    ensures NibbleChar(n) == c
  {
    if c <= '9' then c as int - '0' as int else c as int - 'a' as int + 10
  }

  /** `hex::encode`: two lower-case digits per byte, high nibble first. */
  function Encode(bytes: seq<uint8>): (s: string)
    ensures |s| == 2 * |bytes|
    ensures AllHex(s)
  {
    if |bytes| == 0 then []
    else [NibbleChar(bytes[0] / 16), NibbleChar(bytes[0] % 16)] + Encode(bytes[1..])
  }

  /** Reads back a string of lower-case hex digit pairs. */
  function Decode(s: string): Option<seq<uint8>>
    decreases |s|
  {
    if |s| == 0 then Some([])
    else if |s| == 1 || !IsHexChar(s[0]) || !IsHexChar(s[1]) then None
    else
      match Decode(s[2..])
      case None => None
      case Some(rest) => Some([NibbleValue(s[0]) * 16 + NibbleValue(s[1])] + rest)
  }

  lemma {:induction false} DecodeEncode(bytes: seq<uint8>)
    ensures Decode(Encode(bytes)) == Some(bytes)
    decreases |bytes|
  {
    if |bytes| > 0 {
      var s := Encode(bytes);
      DecodeEncode(bytes[1..]);
      assert s[2..] == Encode(bytes[1..]);
      assert NibbleValue(s[0]) == bytes[0] / 16 by {
        assert NibbleChar(NibbleValue(s[0])) == s[0] == NibbleChar(bytes[0] / 16);
        NibbleCharInjective(NibbleValue(s[0]), bytes[0] / 16);
      }
      assert NibbleValue(s[1]) == bytes[0] % 16 by {
        NibbleCharInjective(NibbleValue(s[1]), bytes[0] % 16);
      }
      assert [bytes[0]] + bytes[1..] == bytes;
    }
  }

  lemma NibbleCharInjective(m: nat, n: nat)
    requires m < 16 && n < 16
    requires NibbleChar(m) == NibbleChar(n)
    ensures m == n
  {
  }

  /** Distinct byte strings have distinct encodings. */
  lemma EncodeInjective(a: seq<uint8>, b: seq<uint8>)
    requires Encode(a) == Encode(b)
    ensures a == b
  {
    DecodeEncode(a);
    DecodeEncode(b);
  }
}
