/**
SHA-256 as the tools use it: 32 bytes written as 64 hexadecimal digits. Which function it is makes
no difference; that it is injective is never assumed.
*/
module Checksum {

  predicate IsHexDigit(c: char) {
    '0' <= c <= '9' || 'a' <= c <= 'f'
  }

  predicate IsHex(s: string) {
    forall i :: 0 <= i < |s| ==> IsHexDigit(s[i])
  }

  predicate IsDigest(s: string) {
    |s| == 64 && IsHex(s)
  }

  const ZERO: string := seq(64, _ => '0')

  type Sum = f: string -> string | forall s :: IsDigest(f(s)) witness _ => ZERO

  // The first n bytes of a checksum, in hexadecimal
  function Short(sum: Sum, s: string, n: nat): (r: string)
    requires n <= 32
    ensures |r| == 2 * n && IsHex(r)
  {
    sum(s)[..2 * n]
  }
}
