/**
 Streaming SHA-1: `update` keeps a partial block and a 64-bit bit count split over two words, and
 `final` pads. The transform of one block is a parameter.
 */
module Sha1 {
  import opened Arithmetic
  import opened Bytes


  type word = n: nat | n < 0x1_0000_0000

  datatype Hash = Hash(a: word, b: word, c: word, d: word, e: word)

  type Transform = (Hash, seq<byte>) -> Hash

  const INITIAL := Hash(0x67452301, 0xEFCDAB89, 0x98BADCFE, 0x10325476, 0xC3D2E1F0)

  // ---------- the specification ----------

  /** Folding the transform over the full 64-byte blocks of m; a last partial block is not looked at. */
  function Compress(f: Transform, h: Hash, m: seq<byte>): Hash
    decreases |m|
  {
    if |m| < 64 then h else Compress(f, f(h, m[..64]), m[64..])
  }

  /** One 0x80 byte and k zero bytes bring the message to 8 bytes short of a block boundary. */
  predicate PadsTo(len: nat, k: nat) { (len + 1 + k) % 64 == 56 }

  /** The number of zero bytes of the padding. */
  function PadLen(len: nat): (k: nat)
    ensures PadsTo(len, k) && k < 64
  {
    (119 - len % 64) % 64
  }

  /** The bit count, in 64 bits, most significant byte first. */
  function CountBytes(len: nat): (s: seq<byte>)
    ensures |s| == 8
  {
    Be32(8 * len / TWO32 % TWO32) + Be32(8 * len % TWO32)
  }

  /** Section 5.1.1 of FIPS 180-4, in bytes. */
  function Padded(m: seq<byte>): seq<byte> {
    m + [0x80] + Zeros(PadLen(|m|)) + CountBytes(|m|)
  }

  function DigestBytes(h: Hash): (d: seq<byte>)
    ensures |d| == 20
  {
    Be32(h.a) + Be32(h.b) + Be32(h.c) + Be32(h.d) + Be32(h.e)
  }

  function Digest(f: Transform, m: seq<byte>): (d: seq<byte>)
    ensures |d| == 20
  {
    DigestBytes(Compress(f, INITIAL, Padded(m)))
  }

  lemma PadLenLeast(len: nat, k: nat)
    requires PadsTo(len, k)
    ensures PadLen(len) <= k
  {
    assert PadsTo(len, PadLen(len));
  }

  /**
   The padding ends on a block boundary, is the shortest one that does, and up to 2^61 - 1 bytes its
   count is the exact bit length.
   */
  lemma PaddingIsFips(m: seq<byte>)
    ensures |Padded(m)| % 64 == 0
    ensures forall k: nat :: PadsTo(|m|, k) ==> PadLen(|m|) <= k
    ensures |m| < 0x2000_0000_0000_0000 ==>
              U32(CountBytes(|m|)[..4]) * TWO32 + U32(CountBytes(|m|)[4..]) == 8 * |m|
  {
    hide Be32, U32, PadLen, PadsTo, CountBytes;
    PaddedLen(m);
    forall k: nat | PadsTo(|m|, k) ensures PadLen(|m|) <= k {
      PadLenLeast(|m|, k);
    }
    if |m| < 0x2000_0000_0000_0000 {
      CountIsExact(|m|);
    }
  }

  lemma PaddedLen(m: seq<byte>)
    ensures |Padded(m)| % 64 == 0
  {
    hide PadLen, CountBytes;
    assert |Padded(m)| == |m| + 1 + PadLen(|m|) + 8;
    assert PadsTo(|m|, PadLen(|m|));
  }

  lemma CountIsExact(len: nat)
    requires len < 0x2000_0000_0000_0000
    ensures U32(CountBytes(len)[..4]) * TWO32 + U32(CountBytes(len)[4..]) == 8 * len
  {
    hide Be32, U32;
    var hi, lo := 8 * len / TWO32 % TWO32, 8 * len % TWO32;
    assert CountBytes(len)[..4] == Be32(hi) && CountBytes(len)[4..] == Be32(lo);
    U32OfBe32(hi);
    U32OfBe32(lo);
    assert 8 * len == 8 * len / TWO32 * TWO32 + lo;
  }

  lemma {:induction false} CompressSplit(f: Transform, h: Hash, a: seq<byte>, b: seq<byte>)
    requires |a| % 64 == 0
    ensures Compress(f, h, a + b) == Compress(f, Compress(f, h, a), b)
    decreases |a|
  {
    if a == [] {
      assert a + b == b;
    } else {
      assert (a + b)[..64] == a[..64] && (a + b)[64..] == a[64..] + b;
      CompressSplit(f, f(h, a[..64]), a[64..], b);
    }
  }

  /** Where the last partial block starts. */
  function Base(n: nat): (b: nat)
    ensures b <= n < b + 64 && b % 64 == 0 && n - b == n % 64
  {
    n - n % 64
  }

  lemma CompressMore(f: Transform, h: Hash, m: seq<byte>, data: seq<byte>)
    ensures Compress(f, h, m + data) == Compress(f, Compress(f, h, m), m[Base(|m|)..] + data)
  {
    var full, rest := m[..Base(|m|)], m[Base(|m|)..];
    assert m == full + rest && m + data == full + (rest + data);
    CompressSplit(f, h, full, rest + data);
    CompressSplit(f, h, full, rest);
  }

  // ---------- the context ----------

  lemma ShiftedLow(more: nat)
    ensures more % TWO32 * 8 % TWO32 == 8 * (more % 0x2000_0000)
  {
    var a, r, q := more / 0x2000_0000, more % 0x2000_0000, more / TWO32;
    assert more == a * 0x2000_0000 + r && more == q * TWO32 + more % TWO32;
    assert more % TWO32 * 8 == (a - 8 * q) * TWO32 + 8 * r;
    Remainder(more % TWO32 * 8, a - 8 * q, TWO32, 8 * r);
  }

  lemma ModAdd(a: nat, b: nat)
    ensures (a % TWO32 + b % TWO32) % TWO32 == (a + b) % TWO32
  {
  }

  /** Adding to a number split into a low word and the rest, with the carry read off the low word. */
  lemma WideAdd(x: nat, q: nat, c: nat, m: nat, low: nat)
    requires x == q * TWO32 + c && c < TWO32 && low < TWO32
    ensures var sum := (c + low) % TWO32;
            && sum == (x + m * TWO32 + low) % TWO32
            && (x + m * TWO32 + low) / TWO32 == q + m + if sum < c then 1 else 0
  {
    var y := x + m * TWO32 + low;
    if c + low < TWO32 {
      assert y == (q + m) * TWO32 + (c + low);
    } else {
      assert y == (q + m + 1) * TWO32 + (c + low - TWO32);
    }
  }

  /** The two-word arithmetic of `update` keeps the bit count modulo 2^64. */
  lemma CountCarries(len: nat, more: nat)
    ensures var c0, c1 := 8 * len % TWO32, 8 * len / TWO32 % TWO32;
            var sum := (c0 + more % TWO32 * 8 % TWO32) % TWO32;
            && sum == 8 * (len + more) % TWO32
            && ((if sum < c0 then (c1 + 1) % TWO32 else c1) + more / 0x2000_0000 % TWO32) % TWO32
               == 8 * (len + more) / TWO32 % TWO32
  {
    var q, c0 := 8 * len / TWO32, 8 * len % TWO32;
    var m, low := more / 0x2000_0000, 8 * (more % 0x2000_0000);
    ShiftedLow(more);
    assert 8 * (len + more) == 8 * len + m * TWO32 + low;
    WideAdd(8 * len, q, c0, m, low);
    var carry := if (c0 + low) % TWO32 < c0 then 1 else 0;
    ModAdd(q, carry);
    ModAdd(q + carry, m);
  }

  lemma PositionOfCount(len: nat)
    ensures 8 * len % TWO32 / 8 % 64 == len % 64
  {
    var q, r := len / 0x2000_0000, len % 0x2000_0000;
    assert len == q * 0x2000_0000 + r;
    assert 8 * len == q * TWO32 + 8 * r;
    Remainder(8 * len, q, TWO32, 8 * r);
    assert 8 * len % TWO32 / 8 == r;
    assert len / 64 == q * 0x80_0000 + r / 64 && r == r / 64 * 64 + r % 64;
    Remainder(len, q * 0x80_0000 + r / 64, 64, r % 64);
  }

  class Context {
    const transform: Transform
    var state: Hash
    var count0: word
    var count1: word
    const buffer: array<byte>
    ghost var fed: seq<byte>   // every byte passed to Update

    ghost predicate Valid()
      reads this, buffer
    {
      && buffer.Length == 64
      && count0 == 8 * |fed| % TWO32 && count1 == 8 * |fed| / TWO32 % TWO32
      && state == Compress(transform, INITIAL, fed)
      && buffer[..|fed| % 64] == fed[Base(|fed|)..]
    }

    /** `mg_sha1_init`. */
    constructor (transform: Transform)
      ensures Valid() && fed == [] && this.transform == transform && fresh(buffer)
    {
      this.transform := transform;
      state, count0, count1, fed := INITIAL, 0, 0, [];
      buffer := new byte[64];
    }

    /** The word arithmetic of the bit count; returns the position in the partial block. */
    method Count(len: nat) returns (j: nat)
      requires Valid()
      modifies this`count0, this`count1
      ensures j == |fed| % 64
      ensures count0 == 8 * (|fed| + len) % TWO32 && count1 == 8 * (|fed| + len) / TWO32 % TWO32
    {
      hide Compress;
      CountCarries(|fed|, len);
      PositionOfCount(|fed|);
      j := count0;
      count0 := (count0 + len % TWO32 * 8 % TWO32) % TWO32;
      if count0 < j {
        count1 := (count1 + 1) % TWO32;
      }
      count1 := (count1 + len / 0x2000_0000 % TWO32) % TWO32;
      j := j / 8 % 64;
    }

    /** `memcpy` into the partial block. */
    method Fill(j: nat, data: seq<byte>)
      requires buffer.Length == 64 && j + |data| <= 64
      modifies buffer
      ensures buffer[..j + |data|] == old(buffer[..j]) + data
    {
      forall i | 0 <= i < |data| {
        buffer[j + i] := data[i];
      }
    }

    /** The transforms of `update`; i is how much data they used up, `at` where the rest goes. */
    method Blocks(j: nat, data: seq<byte>) returns (i: nat, at: nat)
      requires buffer.Length == 64 && j < 64
      modifies this`state, buffer
      ensures state == Compress(transform, old(state), old(buffer[..j]) + data)
      ensures i <= |data| && at + |data| - i < 64
      ensures if j + |data| > 63 then i > 0 && at == 0 && (j + i) % 64 == 0
              else i == 0 && at == j && buffer[..] == old(buffer[..])
    {
      hide Compress;
      i, at := 0, j;
      ghost var h0, rest := state, buffer[..j];
      if j + |data| > 63 {
        i := 64 - j;
        Fill(j, data[..i]);
        assert buffer[..] == buffer[..64] == rest + data[..i];
        FirstBlock(transform, h0, rest, data, i);
        state := transform(state, buffer[..]);
        while i + 63 < |data|
          invariant 0 < i <= |data| && (j + i) % 64 == 0
          invariant Compress(transform, h0, rest + data) == Compress(transform, state, data[i..])
        {
          NextBlock(transform, state, data, i);
          state := transform(state, data[i..i + 64]);
          i := i + 64;
        }
        NoBlock(transform, state, data[i..]);
        at := 0;
      } else {
        NoBlock(transform, state, rest + data);
      }
    }

    /** `mg_sha1_update`. */
    method Update(data: seq<byte>)
      requires Valid()
      modifies this, buffer
      ensures Valid() && fed == old(fed) + data
    {
      hide Compress, Base;
      ghost var rest := fed[Base(|fed|)..];
      CompressMore(transform, INITIAL, fed, data);
      var j := Count(|data|);
      var i, at := Blocks(j, data);
      ghost var kept := buffer[..at];
      assert i == 0 ==> kept == rest;
      Fill(at, data[i..]);
      PartialBlock(fed, data, i, at);
      assert buffer[..at + |data| - i] == kept + data[i..];
      fed := fed + data;
    }

    /** The padding loop. */
    method PadZeros(ghost m: seq<byte>)
      requires Valid() && fed == m + [0x80]
      modifies this, buffer
      ensures Valid() && fed == m + [0x80] + Zeros(PadLen(|m|))
    {
      hide Compress, Base, PadLen;
      ghost var k: nat := 0;
      PositionOfCount(|fed|);
      while count0 / 8 % 64 * 8 != 448
        invariant Valid() && k <= PadLen(|m|) && fed == m + [0x80] + Zeros(k)
        invariant count0 / 8 % 64 == |fed| % 64
        decreases PadLen(|m|) - k
      {
        Update([0]);
        assert Zeros(k) + [0] == Zeros(k + 1);
        k := k + 1;
        PositionOfCount(|fed|);
      }
      PadLenLeast(|m|, k);
    }

    /** `mg_sha1_final`. */
    method Final() returns (digest: seq<byte>)
      requires Valid()
      modifies this, buffer
      ensures digest == Digest(transform, old(fed))
      ensures state == Hash(0, 0, 0, 0, 0) && count0 == count1 == 0 && forall i :: 0 <= i < 64 ==> buffer[i] == 0
    {
      hide Compress, Base, PadLen, Be32, DigestBytes;
      ghost var m := fed;
      var finalCount := Be32(count1) + Be32(count0);
      assert finalCount == CountBytes(|m|);
      Update([0x80]);
      PadZeros(m);
      Update(finalCount);
      assert fed == Padded(m);
      digest := DigestBytes(state);
      state, count0, count1 := Hash(0, 0, 0, 0, 0), 0, 0;
      forall i | 0 <= i < 64 {
        buffer[i] := 0;
      }
    }
  }

  lemma FirstBlock(f: Transform, h: Hash, rest: seq<byte>, data: seq<byte>, i: nat)
    requires |rest| + i == 64 && i <= |data|
    ensures Compress(f, h, rest + data) == Compress(f, f(h, rest + data[..i]), data[i..])
  {
    assert (rest + data)[..64] == rest + data[..i] && (rest + data)[64..] == data[i..];
  }

  lemma NextBlock(f: Transform, h: Hash, data: seq<byte>, i: nat)
    requires i + 64 <= |data|
    ensures Compress(f, h, data[i..]) == Compress(f, f(h, data[i..i + 64]), data[i + 64..])
  {
    assert data[i..][..64] == data[i..i + 64] && data[i..][64..] == data[i + 64..];
  }

  lemma NoBlock(f: Transform, h: Hash, m: seq<byte>)
    requires |m| < 64
    ensures Compress(f, h, m) == h
  {
  }

  /** What is left after the last full block is the new partial block. */
  lemma PartialBlock(m: seq<byte>, data: seq<byte>, i: nat, j: nat)
    requires i <= |data| && j + |data| - i < 64
    requires if i == 0 then j == |m| % 64 else j == 0 && (|m| % 64 + i) % 64 == 0
    ensures |m + data| % 64 == j + |data| - i
    ensures (m + data)[Base(|m + data|)..] == (if i == 0 then m[Base(|m|)..] else []) + data[i..]
  {
    var r, total := j + |data| - i, |m| + |data|;
    hide Base;
    WholeBlocks(|m|, i, j);
    EndsAt(r, total);
    EndsAt(|m| % 64, |m|);
    if i == 0 {
      assert total - r == Base(|m|);
      assert (m + data)[Base(|m|)..] == m[Base(|m|)..] + data && data[0..] == data;
    } else {
      assert (m + data)[|m| + i..] == data[i..];
    }
  }

  lemma WholeBlocks(n: nat, i: nat, j: nat)
    requires if i == 0 then j == n % 64 else j == 0 && (n % 64 + i) % 64 == 0
    ensures n + i >= j && (n + i - j) % 64 == 0
  {
  }

  lemma EndsAt(r: nat, total: nat)
    requires r < 64 && r <= total && (total - r) % 64 == 0
    ensures total % 64 == r && Base(total) == total - r
  {
  }

  // ---------- the layout, with literal values ----------

  /** Section 5.3.1 of FIPS 180-4. */
  lemma InitialHash()
    ensures INITIAL == Hash(0x67452301, 0xEFCDAB89, 0x98BADCFE, 0x10325476, 0xC3D2E1F0)
  {
  }

  /** The message, 0x80, zeros, and the bit count modulo 2^64 in the last eight bytes. */
  lemma PaddedLayout(m: seq<byte>)
    ensures var p := Padded(m);
            && |p| >= |m| + 9 && p[..|m|] == m && p[|m|] == 0x80
            && (forall i :: |m| < i < |p| - 8 ==> p[i] == 0)
            && U32(p[|p| - 8..|p| - 4]) * TWO32 + U32(p[|p| - 4..]) == 8 * |m| % (TWO32 * TWO32)
  {
    hide CountBytes, U32, PadLen;
    var p, count := Padded(m), CountBytes(|m|);
    assert p[|p| - 8..] == count && p[|p| - 8..|p| - 4] == count[..4] && p[|p| - 4..] == count[4..];
    CountModulo(|m|);
  }

  lemma CountModulo(len: nat)
    ensures U32(CountBytes(len)[..4]) * TWO32 + U32(CountBytes(len)[4..]) == 8 * len % (TWO32 * TWO32)
  {
    hide Be32, U32;
    var q, lo := 8 * len / TWO32, 8 * len % TWO32;
    assert CountBytes(len)[..4] == Be32(q % TWO32) && CountBytes(len)[4..] == Be32(lo);
    U32OfBe32(q % TWO32);
    U32OfBe32(lo);
    assert 8 * len == q * TWO32 + lo && q == q / TWO32 * TWO32 + q % TWO32;
    assert 8 * len == q / TWO32 * (TWO32 * TWO32) + (q % TWO32 * TWO32 + lo);
    Remainder(8 * len, q / TWO32, TWO32 * TWO32, q % TWO32 * TWO32 + lo);
  }

  /** One block of 64 bytes is one transform; fewer bytes are none. */
  lemma CompressBlocks(f: Transform, h: Hash, block: seq<byte>, rest: seq<byte>)
    requires |block| == 64
    ensures Compress(f, h, block + rest) == Compress(f, f(h, block), rest)
    ensures |rest| < 64 ==> Compress(f, h, rest) == h
  {
    assert (block + rest)[..64] == block && (block + rest)[64..] == rest;
  }

  /** The digest is taken from the fold over the padded message. */
  lemma DigestIsFold(f: Transform, m: seq<byte>)
    ensures Digest(f, m) == DigestBytes(Compress(f, INITIAL, Padded(m)))
  {
  }

  /** The digest is five words, each most significant byte first. */
  lemma DigestWords(h: Hash)
    ensures U32(DigestBytes(h)[0..4]) == h.a && U32(DigestBytes(h)[4..8]) == h.b && U32(DigestBytes(h)[8..12]) == h.c
    ensures U32(DigestBytes(h)[12..16]) == h.d && U32(DigestBytes(h)[16..20]) == h.e
  {
    hide Be32, U32;
    U32OfBe32(h.a);
    U32OfBe32(h.b);
    U32OfBe32(h.c);
    U32OfBe32(h.d);
    U32OfBe32(h.e);
    var d := DigestBytes(h);
    assert d[0..4] == Be32(h.a) && d[4..8] == Be32(h.b) && d[8..12] == Be32(h.c);
    assert d[12..16] == Be32(h.d) && d[16..20] == Be32(h.e);
  }
}
