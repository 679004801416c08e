/** Bytes, the numbers they spell in network order, and sequences of chunks. */
module Bytes {

  const TWO32: nat := 0x1_0000_0000

  type byte = bv8

  /** The byte with value n, counted up from zero. */
  function Byte(n: nat): (b: byte)
    requires n < 256
    ensures Num(b) == n
  {
    if n == 0 then 0 else (Successor(Byte(n - 1)); Byte(n - 1) + 1)
  }

  lemma Successor(b: byte)
    requires Num(b) < 255
    ensures Num(b + 1) == Num(b) + 1
  {
  }

  function Num(b: byte): (n: nat)
    ensures n < 256
  {
    b as nat
  }

  lemma NumInjective(a: byte, b: byte)
    requires Num(a) == Num(b)
    ensures a == b
  {
    assert (a as nat) as bv8 == a && (b as nat) as bv8 == b;
  }

  /** Network byte order (`mg_htons`, `mg_ntohs`). */
  function Be16(n: nat): (s: seq<byte>)
    requires n < 0x1_0000
    ensures |s| == 2 && U16(s[0], s[1]) == n
  {
    [Byte(n / 256), Byte(n % 256)]
  }

  function U16(hi: byte, lo: byte): (n: nat)
    ensures n < 0x1_0000
  {
    256 * Num(hi) + Num(lo)
  }

  /** `mg_htonl`, `mg_ntohl`. */
  function Be32(n: nat): (s: seq<byte>)
    requires n < 0x1_0000_0000
    ensures |s| == 4
  {
    Be16(n / 0x1_0000) + Be16(n % 0x1_0000)
  }

  function U32(s: seq<byte>): (n: nat)
    requires |s| == 4
    ensures n < 0x1_0000_0000
  {
    0x1_0000 * U16(s[0], s[1]) + U16(s[2], s[3])
  }

  lemma U32OfBe32(n: nat)
    requires n < 0x1_0000_0000
    ensures U32(Be32(n)) == n
  {
  }

  function Zeros(n: nat): (s: seq<byte>)
    ensures |s| == n && forall i :: 0 <= i < n ==> s[i] == 0
  {
    seq(n, _ => 0)
  }

  function Flatten(chunks: seq<seq<byte>>): seq<byte> {
    if chunks == [] then [] else Flatten(chunks[..|chunks| - 1]) + chunks[|chunks| - 1]
  }

  lemma FlattenNothing()
    ensures Flatten([]) == []
  {
  }

  lemma FlattenSnoc(parts: seq<seq<byte>>, last: seq<byte>)
    ensures Flatten(parts + [last]) == Flatten(parts) + last
  {
    assert (parts + [last])[..|parts|] == parts;
  }

  /** The xor of two bytes undone by the same byte. */
  lemma XorTwice(a: byte, k: byte)
    ensures (a ^ k) ^ k == a
  {
  }

  lemma ByteBelow(b: byte)
    ensures Num(b) < 0x80 <==> b < 0x80
  {
  }

  lemma SevenLow(b: byte)
    ensures b >= 128 ==> b & 0x7f == b - 128 && b & 0x80 != 0
    ensures b < 128 ==> b & 0x7f == b && b & 0x80 == 0
  {
  }

  lemma SevenBits(b: byte)
    requires b < 0x80
    ensures b & 0x7f == b && b & 0x80 == 0 && (b | 0x80) & 0x7f == b && (b | 0x80) & 0x80 != 0
  {
  }

  /** Network order, with literal weights. */
  lemma NetworkOrder(a: byte, b: byte, c: byte, d: byte)
    ensures U16(a, b) == 256 * (a as nat) + b as nat
    ensures U32([a, b, c, d]) == 16777216 * (a as nat) + 65536 * (b as nat) + 256 * (c as nat) + d as nat
  {
  }
}
