// Bytes, the 32-bit little-endian numbers the framing uses, and the packet sizes.
module Bytes {
  type Byte = b: int | 0 <= b < 256

  const TWO_TO_THE_32 := 0x1_0000_0000

  // Sizes in bytes: a whole packet, the part reserved for its header, and the rest.
  const MAX_PACKET_SIZE := 1024
  const MAX_HEADER_SIZE := 128
  const MAX_PAYLOAD_SIZE := 896

  function LE32(n: nat): (s: seq<Byte>)
    requires n < TWO_TO_THE_32
    ensures |s| == 4
  {
    [n % 256, n / 256 % 256, n / 65536 % 256, n / 16777216]
  }

  // The value a little-endian host reads from the first four bytes.
  function FromLE32(s: seq<Byte>): (n: nat)
    requires |s| >= 4
    ensures n < TWO_TO_THE_32
  {
    var b0: int, b1: int, b2: int, b3: int := s[0], s[1], s[2], s[3];
    b0 + 256 * b1 + 65536 * b2 + 16777216 * b3
  }

  lemma LE32RoundTrip(n: nat, rest: seq<Byte>)
    requires n < TWO_TO_THE_32
    ensures FromLE32(LE32(n) + rest) == n
  {
    var s := LE32(n) + rest;
    assert s[0] == n % 256 && s[1] == n / 256 % 256 && s[2] == n / 65536 % 256 && s[3] == n / 16777216;
    assert n / 256 / 256 == n / 65536 && n / 65536 / 256 == n / 16777216;
  }

  lemma FromLE32RoundTrip(s: seq<Byte>)
    requires |s| >= 4
    ensures LE32(FromLE32(s)) == s[..4]
  {
    var n := FromLE32(s);
    var b1: int, b2: int, b3: int := s[1], s[2], s[3];
    assert n / 256 == b1 + 256 * b2 + 65536 * b3;
    assert n / 65536 == b2 + 256 * b3;
    assert n / 16777216 == b3;
  }
}
