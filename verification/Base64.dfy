/**
 Streaming base64. The encoder keeps the bits that do not yet make up a character in the next cell
 of the output buffer.
 */
module Base64 {
  import opened Bytes
  import opened IoBuf
  import opened Wrappers

  const PAD: byte := 61       // '='
  const INVALID: byte := 255  // what stands for -1

  // ---------- the alphabet ----------

  function B64Idx(c: byte): byte {
    if c < 26 then c + 65
    else if c < 52 then c - 26 + 97
    else if c < 62 then c - 52 + 48
    else if c == 62 then 43 else 47
  }

  /** The index of a character, 64 for the padding, INVALID otherwise. */
  function B64Rev(c: byte): byte {
    if 65 <= c <= 90 then c - 65
    else if 97 <= c <= 122 then c + 26 - 97
    else if 48 <= c <= 57 then c + 52 - 48
    else if c == 43 then 62
    else if c == 47 then 63
    else if c == PAD then 64
    else INVALID
  }

  lemma RevIdx(c: byte)
    requires c < 64
    ensures B64Rev(B64Idx(c)) == c && B64Idx(c) != PAD && B64Rev(PAD) == 64
  {
  }

  // ---------- the specification ----------

  /** The 24-bit group of section 4 of RFC 4648. */
  function Group(a: byte, b: byte, c: byte): bv24 {
    (a as bv24 << 16) | (b as bv24 << 8) | (c as bv24)
  }

  /** The k-th 6-bit group, from the left. */
  function Sextet(v: bv24, k: nat): byte
    requires k < 4
  {
    ((if k == 0 then v >> 18 else if k == 1 then v >> 12 else if k == 2 then v >> 6 else v) & 0x3f) as byte
  }

  function Char(v: bv24, k: nat): byte
    requires k < 4
  {
    B64Idx(Sextet(v, k))
  }

  function EncodeGroup(v: bv24): (r: seq<byte>)
    ensures |r| == 4
  {
    [Char(v, 0), Char(v, 1), Char(v, 2), Char(v, 3)]
  }

  /** Section 4 of RFC 4648. */
  function Encode(m: seq<byte>): (r: seq<byte>)
    ensures |r| == 4 * ((|m| + 2) / 3)
  {
    if m == [] then []
    else if |m| == 1 then
      var v := Group(m[0], 0, 0);
      [Char(v, 0), Char(v, 1), PAD, PAD]
    else if |m| == 2 then
      var v := Group(m[0], m[1], 0);
      [Char(v, 0), Char(v, 1), Char(v, 2), PAD]
    else EncodeGroup(Group(m[0], m[1], m[2])) + Encode(m[3..])
  }

  // ---------- the streaming state ----------

  /** The characters that m determines completely. */
  function Settled(m: seq<byte>): seq<byte> {
    if m == [] then []
    else if |m| == 1 then [Char(Group(m[0], 0, 0), 0)]
    else if |m| == 2 then [Char(Group(m[0], m[1], 0), 0), Char(Group(m[0], m[1], 0), 1)]
    else EncodeGroup(Group(m[0], m[1], m[2])) + Settled(m[3..])
  }

  lemma {:induction false} SettledLen(m: seq<byte>)
    ensures |Settled(m)| == |m| / 3 * 4 + |m| % 3
    decreases |m|
  {
    hide Char;
    if |m| >= 3 {
      SettledLen(m[3..]);
    }
  }

  lemma SettledRem(m: seq<byte>)
    ensures |Settled(m)| % 4 == |m| % 3
  {
    hide Settled;
    SettledLen(m);
    Mod4(|m| / 3, |m| % 3);
  }

  lemma Mod4(q: nat, r: nat)
    requires r < 4
    ensures (q * 4 + r) % 4 == r
  {
  }

  /** How many bytes of the last group there are. */
  function Phase(m: seq<byte>): (k: nat)
    ensures k < 3
  {
    |m| % 3
  }

  lemma PhaseFacts(m: seq<byte>, ch: byte)
    ensures Phase(m + [ch]) == if Phase(m) == 2 then 0 else Phase(m) + 1
    ensures |m| >= 3 ==> Phase(m[3..]) == Phase(m)
    ensures |Settled(m)| % 4 == Phase(m)
  {
    hide Settled;
    SettledRem(m);
  }

  // The bit moves of one `update`: the bits that complete a character and the bits left over.

  function First(ch: byte): byte { B64Idx(ch >> 2) }
  function Second(pending: byte, ch: byte): byte { B64Idx(pending | (ch >> 4)) }
  function Third(pending: byte, ch: byte): byte { B64Idx(pending | (ch >> 6)) }
  function Fourth(ch: byte): byte { B64Idx(ch & 63) }
  function Left2(ch: byte): byte { (ch & 3) << 4 }
  function Left4(ch: byte): byte { (ch & 15) << 2 }

  /** The left-over bits of m, shifted to their place in the next 6-bit group. */
  function Pending(m: seq<byte>): byte {
    if |m| == 0 || Phase(m) == 0 then 0
    else if Phase(m) == 1 then Left2(m[|m| - 1])
    else Left4(m[|m| - 1])
  }

  lemma Bits0(a: byte, b: byte, c: byte)
    ensures Sextet(Group(a, b, c), 0) == a >> 2
  {
  }

  lemma Bits1(a: byte, b: byte, c: byte)
    ensures Sextet(Group(a, b, c), 1) == ((a & 3) << 4) | (b >> 4)
  {
  }

  lemma Bits2(a: byte, b: byte, c: byte)
    ensures Sextet(Group(a, b, c), 2) == ((b & 15) << 2) | (c >> 6)
  {
  }

  lemma Bits3(a: byte, b: byte, c: byte)
    ensures Sextet(Group(a, b, c), 3) == c & 63
  {
  }

  /** What one more byte settles. */
  function Next(m: seq<byte>, ch: byte): seq<byte> {
    if Phase(m) == 0 then [First(ch)]
    else if Phase(m) == 1 then [Second(Pending(m), ch)]
    else [Third(Pending(m), ch), Fourth(ch)]
  }

  lemma GroupChars(a: byte, b: byte, c: byte)
    ensures Char(Group(a, b, c), 0) == First(a)
    ensures Char(Group(a, b, c), 1) == Second(Left2(a), b)
    ensures Char(Group(a, b, c), 2) == Third(Left4(b), c)
    ensures Char(Group(a, b, c), 3) == Fourth(c)
  {
    hide Group, Sextet, B64Idx;
    Bits0(a, b, c);
    Bits1(a, b, c);
    Bits2(a, b, c);
    Bits3(a, b, c);
  }

  lemma SettledGroup(m: seq<byte>)
    requires |m| >= 3
    ensures Settled(m) == EncodeGroup(Group(m[0], m[1], m[2])) + Settled(m[3..])
  {
  }

  lemma PendingGroup(m: seq<byte>)
    requires |m| >= 3
    ensures Phase(m[3..]) == Phase(m) && Pending(m[3..]) == Pending(m)
  {
    hide Phase, Left2, Left4, Settled;
    PhaseFacts(m, 0);
    Phase0(m);
  }

  lemma Phase0(m: seq<byte>)
    ensures |m| == 3 ==> Phase(m) == 0
  {
  }

  lemma NextGroup(m: seq<byte>, ch: byte)
    requires |m| >= 3
    ensures Next(m, ch) == Next(m[3..], ch) && (m + [ch])[3..] == m[3..] + [ch]
  {
    hide First, Second, Third, Fourth, Phase, Pending;
    PendingGroup(m);
  }

  lemma {:induction false} SettledSnoc(m: seq<byte>, ch: byte)
    ensures Settled(m + [ch]) == Settled(m) + Next(m, ch)
    decreases |m|
  {
    hide Group, EncodeGroup, B64Idx, Settled, Pending, Next;
    if |m| < 3 {
      SettledShort(m, ch);
    } else {
      SettledSnoc(m[3..], ch);
      NextGroup(m, ch);
      SettledGroup(m);
      SettledGroup(m + [ch]);
      var g := EncodeGroup(Group(m[0], m[1], m[2]));
      assert g + (Settled(m[3..]) + Next(m, ch)) == g + Settled(m[3..]) + Next(m, ch);
    }
  }

  lemma SettledOne(a: byte)
    ensures Settled([a]) == [First(a)] && Pending([a]) == Left2(a)
  {
    hide Group, Char, First, Second, Third, Fourth, Left2, Left4;
    GroupChars(a, 0, 0);
  }

  lemma SettledTwo(a: byte, b: byte)
    ensures Settled([a, b]) == [First(a), Second(Left2(a), b)] && Pending([a, b]) == Left4(b)
  {
    hide Group, Char, First, Second, Third, Fourth, Left2, Left4;
    GroupChars(a, b, 0);
  }

  lemma SettledThree(a: byte, b: byte, c: byte)
    ensures Settled([a, b, c]) ==
            [First(a), Second(Left2(a), b), Third(Left4(b), c), Fourth(c)]
  {
    hide Group, Char, First, Second, Third, Fourth, Left2, Left4;
    GroupChars(a, b, c);
    assert [a, b, c][3..] == [];
  }

  lemma SnocZero(ch: byte)
    ensures Settled([ch]) == Settled([]) + Next([], ch)
  {
    hide First, Second, Third, Fourth, Left2, Left4;
    SettledOne(ch);
  }

  lemma SnocOne(a: byte, ch: byte)
    ensures Settled([a, ch]) == Settled([a]) + Next([a], ch)
  {
    hide Settled, Pending, First, Second, Third, Fourth, Left2, Left4;
    SettledOne(a);
    SettledTwo(a, ch);
  }

  lemma SnocTwo(a: byte, b: byte, ch: byte)
    ensures Settled([a, b, ch]) == Settled([a, b]) + Next([a, b], ch)
  {
    hide Settled, Pending, First, Second, Third, Fourth, Left2, Left4;
    SettledTwo(a, b);
    SettledThree(a, b, ch);
  }

  lemma SnocAfterOne(m: seq<byte>, ch: byte)
    requires |m| == 1
    ensures Settled(m + [ch]) == Settled(m) + Next(m, ch)
  {
    hide Settled, Next;
    assert m == [m[0]] && m + [ch] == [m[0], ch];
    SnocOne(m[0], ch);
  }

  lemma SnocAfterTwo(m: seq<byte>, ch: byte)
    requires |m| == 2
    ensures Settled(m + [ch]) == Settled(m) + Next(m, ch)
  {
    hide Settled, Next;
    assert m == [m[0], m[1]] && m + [ch] == [m[0], m[1], ch];
    SnocTwo(m[0], m[1], ch);
  }

  lemma SettledShort(m: seq<byte>, ch: byte)
    requires |m| < 3
    ensures Settled(m + [ch]) == Settled(m) + Next(m, ch)
  {
    hide Settled, Next;
    if |m| == 0 {
      assert m + [ch] == [ch];
      SnocZero(ch);
    } else if |m| == 1 {
      SnocAfterOne(m, ch);
    } else {
      SnocAfterTwo(m, ch);
    }
  }

  lemma PendingSnoc(m: seq<byte>, ch: byte)
    ensures Phase(m) == 0 ==> Pending(m + [ch]) == Left2(ch)
    ensures Phase(m) == 1 ==> Pending(m + [ch]) == Left4(ch)
  {
    hide Left2, Left4, Phase, Settled;
    PhaseFacts(m, ch);
  }

  /** How the settled characters and the pending bits make up the encoding. */
  function Finished(m: seq<byte>): seq<byte> {
    if Phase(m) == 0 then Settled(m)
    else if Phase(m) == 1 then Settled(m) + [B64Idx(Pending(m)), PAD, PAD]
    else Settled(m) + [B64Idx(Pending(m)), PAD]
  }

  lemma ZeroBits(x: byte)
    ensures Second(x, 0) == B64Idx(x) && Third(x, 0) == B64Idx(x)
  {
  }

  lemma FinishedGroup(m: seq<byte>)
    requires |m| >= 3
    ensures Finished(m) == EncodeGroup(Group(m[0], m[1], m[2])) + Finished(m[3..])
  {
    hide EncodeGroup, Group, Settled, Pending, Phase, B64Idx;
    SettledGroup(m);
    PendingGroup(m);
  }

  lemma {:induction false} FinishedIsEncode(m: seq<byte>)
    ensures Finished(m) == Encode(m)
    decreases |m|
  {
    hide Group, Char, B64Idx, First, Second, Third, Fourth, Left2, Left4;
    if |m| == 1 {
      GroupChars(m[0], 0, 0);
      ZeroBits(Left2(m[0]));
    } else if |m| == 2 {
      GroupChars(m[0], m[1], 0);
      ZeroBits(Left4(m[1]));
    } else if |m| >= 3 {
      FinishedIsEncode(m[3..]);
      FinishedGroup(m);
    }
  }

  /** The output buffer from `base` holds the settled characters of m and, if any, its pending bits. */
  ghost predicate Holds(to: array<byte>, base: nat, n: nat, m: seq<byte>)
    reads to
  {
    && n == |Settled(m)| && base + n <= to.Length
    && to[base..base + n] == Settled(m)
    && (Phase(m) != 0 ==> base + n < to.Length && to[base + n] == Pending(m))
  }

  /** Cells outside [from, to) are untouched. */
  twostate predicate OnlyWithin(a: array<byte>, lo: nat, hi: nat)
    reads a
  {
    forall i :: 0 <= i < a.Length && !(lo <= i < hi) ==> a[i] == old(a[i])
  }

  /** Writing one cell, or two, at the end of what the buffer holds. */
  lemma Extended(a: seq<byte>, b: seq<byte>, base: nat, n0: nat, n: nat, more: seq<byte>)
    requires base + n0 <= base + n <= |a| == |b| && n - n0 == |more|
    requires b[..base + n0] == a[..base + n0] && b[base + n0..base + n] == more
    ensures b[base..base + n] == a[base..base + n0] + more
  {
    assert b[base..base + n] == b[..base + n0][base..] + b[base + n0..base + n];
    assert a[base..base + n0] == a[..base + n0][base..];
  }

  /** `mg_base64_update`: one more byte; it touches the cells n and n + 1 only. */
  method Update(ch: byte, to: array<byte>, base: nat, n0: nat, ghost m: seq<byte>) returns (n: nat)
    requires Holds(to, base, n0, m) && base + n0 + 1 < to.Length
    modifies to
    ensures Holds(to, base, n, m + [ch]) && n0 < n
    ensures OnlyWithin(to, base + n0, base + n0 + 2)
  {
    hide Settled, Pending, Phase, First, Second, Third, Fourth, Left2, Left4;
    n := n0;
    SettledSnoc(m, ch);
    PendingSnoc(m, ch);
    PhaseFacts(m, ch);
    var rem := n % 4 % 3;
    assert rem == Phase(m);
    if rem == 0 {
      WriteTwo(to, base, n, First(ch), Left2(ch));
      n := n + 1;
    } else if rem == 1 {
      WriteTwo(to, base, n, Second(to[base + n], ch), Left4(ch));
      n := n + 1;
    } else {
      WriteTwo(to, base, n, Third(to[base + n], ch), Fourth(ch));
      n := n + 2;
    }
  }

  /** The two cells that an update writes: the second holds a character or the bits left over. */
  method WriteTwo(to: array<byte>, base: nat, n: nat, x: byte, y: byte)
    requires base + n + 1 < to.Length
    modifies to
    ensures to[base..base + n + 1] == old(to[base..base + n]) + [x]
    ensures to[base..base + n + 2] == old(to[base..base + n]) + [x, y] && to[base + n + 1] == y
    ensures OnlyWithin(to, base + n, base + n + 2)
  {
    to[base + n] := x;
    to[base + n + 1] := y;
    assert to[base..base + n] == old(to[base..base + n]);
    assert to[base..base + n + 1] == to[base..base + n] + [x];
    assert to[base..base + n + 2] == to[base..base + n] + [x, y];
  }

  /** Turning the pending bits into a character, as `final` does with a zero byte. */
  method Flush(to: array<byte>, base: nat, n0: nat, ghost m: seq<byte>) returns (n: nat)
    requires Holds(to, base, n0, m) && base + n0 + 1 < to.Length && Phase(m) != 0
    modifies to
    ensures n == n0 + 1 && to[base..base + n] == Settled(m) + [B64Idx(Pending(m))]
    ensures OnlyWithin(to, base + n0, base + n0 + 2)
  {
    hide Settled, B64Idx, Pending, Phase, First, Second, Third, Fourth;
    PhaseFacts(m, 0);
    n := Update(0, to, base, n0, m);
    SettledSnoc(m, 0);
    ZeroBits(Pending(m));
    assert to[base..base + n] == Settled(m) + Next(m, 0);
    if n0 % 4 == 2 {
      n := n - 1;
      assert to[base..base + n] == to[base..base + n + 1][..n];
    }
    assert n == n0 + 1;
    assert to[base..base + n] == (Settled(m) + Next(m, 0))[..n];
  }

  /** The padding loop of `final`: up to the next multiple of 4. */
  method PadOut(to: array<byte>, base: nat, n0: nat, ghost e: seq<byte>) returns (n: nat)
    requires n0 <= |e| < n0 + 4 && |e| % 4 == 0 && base + |e| <= to.Length
    requires to[base..base + n0] == e[..n0] && forall k :: n0 <= k < |e| ==> e[k] == PAD
    modifies to
    ensures n == |e| && to[base..base + n] == e
    ensures OnlyWithin(to, base + n0, base + n)
  {
    n := n0;
    while n % 4 != 0
      invariant n0 <= n <= |e|
      invariant to[base..base + n] == e[..n]
      invariant forall i :: 0 <= i < to.Length && !(base + n0 <= i < base + n) ==> to[i] == old(to[i])
      decreases |e| - n
    {
      ghost var was := to[..];
      to[base + n] := PAD;
      n := n + 1;
      Extended(was, to[..], base, n - 1, n, [PAD]);
    }
  }

  lemma PadsLeft(m: seq<byte>)
    ensures var n := |Settled(m)| + if Phase(m) == 0 then 0 else 1;
            n <= |Encode(m)| < n + 4 && forall k :: n <= k < |Encode(m)| ==> Encode(m)[k] == PAD
    ensures Encode(m)[..|Settled(m)|] == Settled(m)
    ensures Phase(m) != 0 ==> Encode(m)[..|Settled(m)| + 1] == Settled(m) + [B64Idx(Pending(m))]
  {
    hide Settled, Encode, B64Idx, Pending;
    FinishedIsEncode(m);
    SettledLen(m);
  }

  /** The start of `final`: the pending bits become a character, and only padding is missing. */
  method Complete(to: array<byte>, base: nat, n0: nat, ghost m: seq<byte>) returns (n: nat)
    requires Holds(to, base, n0, m) && base + |Encode(m)| < to.Length
    modifies to
    ensures n0 <= n <= |Encode(m)| < n + 4 && to[base..base + n] == Encode(m)[..n]
    ensures forall k :: n <= k < |Encode(m)| ==> Encode(m)[k] == PAD
    ensures OnlyWithin(to, base + n0, base + |Encode(m)| + 1)
  {
    hide Settled, Encode, B64Idx, Pending, Phase;
    PadsLeft(m);
    PhaseFacts(m, 0);
    n := n0;
    if n % 4 != 0 {
      n := Flush(to, base, n0, m);
    }
  }

  lemma EncodeFours(m: seq<byte>)
    ensures |Encode(m)| % 4 == 0
  {
    hide Encode;
  }

  /** `mg_base64_final`: it touches no cell past the terminating zero. */
  method Final(to: array<byte>, base: nat, n0: nat, ghost m: seq<byte>) returns (n: nat)
    requires Holds(to, base, n0, m) && base + |Encode(m)| < to.Length
    modifies to
    ensures n == |Encode(m)| && to[base..base + n] == Encode(m) && to[base + n] == 0
    ensures OnlyWithin(to, base + n0, base + n + 1)
  {
    hide Encode, Settled, Pending, Phase;
    n := Complete(to, base, n0, m);
    EncodeFours(m);
    n := PadOut(to, base, n, Encode(m));
    Terminate(to, base, n);
  }

  method Terminate(to: array<byte>, base: nat, n: nat)
    requires base + n < to.Length
    modifies to
    ensures to[base..base + n] == old(to[base..base + n]) && to[base + n] == 0
    ensures OnlyWithin(to, base + n, base + n + 1)
  {
    to[base + n] := 0;
  }

  lemma SettledBelow(m: seq<byte>, data: seq<byte>, i: nat)
    requires i < |data|
    ensures |Settled(m + data[..i])| + 1 <= |Encode(m + data)|
  {
    hide Settled, Encode;
    SettledLen(m + data[..i]);
  }

  /** A run of updates. */
  method UpdateAll(data: seq<byte>, to: array<byte>, base: nat, n0: nat, ghost m: seq<byte>) returns (n: nat)
    requires Holds(to, base, n0, m) && base + |Encode(m + data)| < to.Length
    modifies to
    ensures Holds(to, base, n, m + data)
    ensures OnlyWithin(to, base + n0, base + |Encode(m + data)| + 1)
  {
    hide Settled, Encode, Pending;
    n := n0;
    assert m + data[..0] == m;
    for i := 0 to |data|
      invariant Holds(to, base, n, m + data[..i]) && n0 <= n
      invariant OnlyWithin(to, base + n0, base + |Encode(m + data)| + 1)
    {
      SettledBelow(m, data, i);
      n := Update(data[i], to, base, n, m + data[..i]);
      assert m + data[..i] + [data[i]] == m + data[..i + 1];
    }
    assert m + data[..|data|] == m + data;
  }

  /** `mg_base64_encode`. */
  method EncodeInto(data: seq<byte>, to: array<byte>) returns (n: nat)
    requires |Encode(data)| < to.Length
    modifies to
    ensures n == |Encode(data)| && to[..n] == Encode(data) && to[n] == 0
    ensures OnlyWithin(to, 0, n + 1)
  {
    hide Encode, Pending;
    assert Holds(to, 0, 0, []);
    n := UpdateAll(data, to, 0, 0, []);
    assert [] + data == data;
    n := Final(to, 0, n, data);
    assert to[0..0 + n] == to[..n];
  }

  // ---------- decoding ----------

  // The bytes that four 6-bit groups make up.

  function Byte1(x: byte, y: byte): byte { (x << 2) | (y >> 4) }
  function Byte2(y: byte, z: byte): byte { (y << 4) | (z >> 2) }
  function Byte3(z: byte, w: byte): byte { (z << 6) | w }

  /** The bytes of one group of four characters, or nothing if a character is out of place. */
  function DecodeGroup(a: byte, b: byte, c: byte, d: byte): Option<seq<byte>> {
    var x, y, z, w := B64Rev(a), B64Rev(b), B64Rev(c), B64Rev(d);
    if x >= 64 || y >= 64 || z == INVALID || w == INVALID then None
    else
      if c == PAD then Some([Byte1(x, y)])
      else if d == PAD then Some([Byte1(x, y), Byte2(y, z)])
      else Some([Byte1(x, y), Byte2(y, z), Byte3(z, w)])
  }

  /** Groups of four from the left; characters that do not fill a group are ignored. */
  function Decode(s: seq<byte>): Option<seq<byte>> {
    if |s| < 4 then Some([])
    else
      match DecodeGroup(s[0], s[1], s[2], s[3])
      case None => None
      case Some(bytes) =>
        match Decode(s[4..])
        case None => None
        case Some(rest) => Some(bytes + rest)
  }

  /** How many cells the decoder writes: the bytes of the groups before a malformed one, and a zero if there is none. */
  function Cells(s: seq<byte>): nat {
    if |s| < 4 then 1
    else
      match DecodeGroup(s[0], s[1], s[2], s[3])
      case None => 0
      case Some(bytes) => |bytes| + Cells(s[4..])
  }

  /** Three cells for every four characters and one more are always enough. */
  lemma {:induction false} CellsBound(s: seq<byte>)
    ensures Cells(s) <= |s| / 4 * 3 + 1
    decreases |s|
  {
    hide B64Rev, Byte1, Byte2, Byte3;
    if |s| >= 4 {
      CellsBound(s[4..]);
    }
  }

  /** `mg_base64_decode`: 0 for a malformed text, otherwise the bytes followed by a zero. */
  method DecodeInto(src: seq<byte>, dst: array<byte>) returns (len: nat)
    requires Cells(src) <= dst.Length
    modifies dst
    ensures Decode(src).None? ==> len == 0
    ensures Decode(src).Some? ==>
              len == |Decode(src).value| < dst.Length && dst[..len] == Decode(src).value && dst[len] == 0
  {
    hide DecodeGroup, Decode, Cells;
    len := 0;
    var i: nat := 0;
    assert src[0..] == src;
    assert forall rest: seq<byte> :: dst[..0] + rest == rest;
    while i + 3 < |src|
      invariant i <= |src| && len <= dst.Length && Cells(src) == len + Cells(src[i..])
      invariant Decode(src) == match Decode(src[i..]) case None => None case Some(rest) => Some(dst[..len] + rest)
    {
      DecodeStep(src, i);
      ghost var was := dst[..len];
      var ok, k := PutGroup(src[i], src[i + 1], src[i + 2], src[i + 3], dst, len);
      if !ok {
        return 0;
      }
      ghost var bytes := DecodeGroup(src[i], src[i + 1], src[i + 2], src[i + 3]).value;
      assert dst[..k] == was + bytes;
      AppendAssoc(was, bytes, Decode(src[i + 4..]));
      len := k;
      i := i + 4;
    }
    DecodeShort(src[i..]);
    assert dst[..len] + [] == dst[..len];
    dst[len] := 0;
  }

  lemma DecodeShort(s: seq<byte>)
    requires |s| < 4
    ensures Decode(s) == Some([]) && Cells(s) == 1
  {
  }

  lemma AppendAssoc(a: seq<byte>, b: seq<byte>, rest: Option<seq<byte>>)
    ensures rest.Some? ==> a + (b + rest.value) == a + b + rest.value
  {
  }

  lemma DecodeStep(src: seq<byte>, i: nat)
    requires i + 4 <= |src|
    ensures Decode(src[i..]) ==
            match DecodeGroup(src[i], src[i + 1], src[i + 2], src[i + 3])
            case None => None
            case Some(bytes) =>
              match Decode(src[i + 4..])
              case None => None
              case Some(rest) => Some(bytes + rest)
    ensures Cells(src[i..]) ==
            match DecodeGroup(src[i], src[i + 1], src[i + 2], src[i + 3])
            case None => 0
            case Some(bytes) => |bytes| + Cells(src[i + 4..])
  {
    hide DecodeGroup;
    assert src[i..][4..] == src[i + 4..];
  }

  method Put(dst: array<byte>, len: nat, b: byte)
    requires len < dst.Length
    modifies dst
    ensures dst[..len + 1] == old(dst[..len]) + [b]
  {
    dst[len] := b;
    assert dst[..len + 1] == dst[..len] + [b];
  }

  /** The body of the decoder's loop. */
  method PutGroup(a: byte, b: byte, c: byte, d: byte, dst: array<byte>, len0: nat) returns (ok: bool, len: nat)
    requires DecodeGroup(a, b, c, d).Some? ==> len0 + |DecodeGroup(a, b, c, d).value| <= dst.Length
    requires len0 <= dst.Length
    modifies dst
    ensures ok == DecodeGroup(a, b, c, d).Some?
    ensures ok ==>
              var bytes := DecodeGroup(a, b, c, d).value;
              len == len0 + |bytes| && dst[..len] == old(dst[..len0]) + bytes
  {
    hide B64Rev, Byte1, Byte2, Byte3;
    ghost var was := dst[..len0];
    len := len0;
    RevRange(a);
    RevRange(b);
    var x, y, z, w := B64Rev(a), B64Rev(b), B64Rev(c), B64Rev(d);
    if x == 64 || x == INVALID || y == 64 || y == INVALID || z == INVALID || w == INVALID {
      return false, len;
    }
    Put(dst, len, Byte1(x, y));
    len := len + 1;
    if c != PAD {
      Put(dst, len, Byte2(y, z));
      len := len + 1;
      if d != PAD {
        Put(dst, len, Byte3(z, w));
        len := len + 1;
      }
    }
    assert dst[..len] == was + DecodeGroup(a, b, c, d).value;
    ok := true;
  }

  lemma RevRange(c: byte)
    ensures B64Rev(c) >= 64 <==> B64Rev(c) == 64 || B64Rev(c) == INVALID
  {
  }

  lemma JoinSextets(a: byte, b: byte, c: byte)
    ensures var v := Group(a, b, c);
            var x, y, z, w := Sextet(v, 0), Sextet(v, 1), Sextet(v, 2), Sextet(v, 3);
            && x < 64 && y < 64 && z < 64 && w < 64
            && Byte1(x, y) == a && Byte2(y, z) == b && Byte3(z, w) == c
  {
  }

  predicate BelowPad(x: byte) { x < 64 && x != INVALID }

  lemma BackToSextets(a: byte, b: byte, c: byte)
    ensures var v := Group(a, b, c);
            forall k: nat :: k < 4 ==> B64Rev(Char(v, k)) == Sextet(v, k) && BelowPad(Sextet(v, k)) && Char(v, k) != PAD
  {
    hide Group, Sextet, B64Idx, B64Rev;
    JoinSextets(a, b, c);
    var v := Group(a, b, c);
    forall k: nat | k < 4
      ensures B64Rev(Char(v, k)) == Sextet(v, k) && BelowPad(Sextet(v, k)) && Char(v, k) != PAD
    {
      RevIdx(Sextet(v, k));
    }
  }

  lemma DecodeChars(a: byte, b: byte, c: byte)
    ensures var v := Group(a, b, c);
            && DecodeGroup(Char(v, 0), Char(v, 1), Char(v, 2), Char(v, 3)) == Some([a, b, c])
            && DecodeGroup(Char(v, 0), Char(v, 1), Char(v, 2), PAD) == Some([a, b])
            && DecodeGroup(Char(v, 0), Char(v, 1), PAD, PAD) == Some([a])
  {
    hide Group, Sextet, Char, B64Rev, Byte1, Byte2, Byte3;
    JoinSextets(a, b, c);
    BackToSextets(a, b, c);
    RevPad();
  }

  lemma RevPad()
    ensures B64Rev(PAD) == 64
  {
  }

  /** Decoding what was encoded gives every byte string back. */
  lemma {:induction false} DecodeEncode(m: seq<byte>)
    ensures Decode(Encode(m)) == Some(m)
    decreases |m|
  {
    hide Group, Char, DecodeGroup;
    var e := Encode(m);
    if |m| == 1 {
      DecodeChars(m[0], 0, 0);
      assert e[4..] == [] && m == [m[0]] + [];
    } else if |m| == 2 {
      DecodeChars(m[0], m[1], 0);
      assert e[4..] == [] && m == [m[0], m[1]] + [];
    } else if |m| >= 3 {
      DecodeChars(m[0], m[1], m[2]);
      DecodeEncode(m[3..]);
      assert e[4..] == Encode(m[3..]);
      assert m == [m[0], m[1], m[2]] + m[3..];
    }
  }

  // ---------- basic authentication ----------

  function Ascii(s: string): (r: seq<byte>)
    requires forall i :: 0 <= i < |s| ==> s[i] < 128 as char
    ensures |r| == |s|
  {
    seq(|s|, i requires 0 <= i < |s| => Byte(s[i] as int))
  }

  const AUTHORIZATION: seq<byte> := Ascii("Authorization: Basic ")
  const CRLF: seq<byte> := [13, 10]
  const COLON: byte := 58

  function Credentials(user: seq<byte>, pass: seq<byte>): seq<byte> {
    if pass == [] then user else user + [COLON] + pass
  }

  /** The room `mg_http_bauth` reserves always takes the line and the terminating zero. */
  lemma RoomSuffices(user: seq<byte>, pass: seq<byte>)
    ensures 21 + |Encode(Credentials(user, pass))| + 2 <= 36 + (|user| + |pass|) * 2
  {
    hide Encode;
  }

  lemma LengthsGrow(user: seq<byte>, pass: seq<byte>)
    ensures |Encode(user)| <= |Encode(Credentials(user, pass))|
    ensures pass != [] ==> |Settled(user)| + 1 < |Encode(Credentials(user, pass))|
  {
    hide Encode, Settled;
    SettledLen(user);
  }

  /** The encoded credentials and the terminating zero. */
  method WriteCredentials(buf: array<byte>, base: nat, user: seq<byte>, pass: seq<byte>) returns (n: nat)
    requires base + |Encode(Credentials(user, pass))| < buf.Length
    modifies buf
    ensures n == |Encode(Credentials(user, pass))|
    ensures buf[base..base + n] == Encode(Credentials(user, pass)) && buf[base + n] == 0
    ensures OnlyWithin(buf, base, base + n + 1)
  {
    hide Encode, Pending, Settled;
    ghost var end := base + |Encode(Credentials(user, pass))| + 1;
    LengthsGrow(user, pass);
    HoldsNothing(buf, base);
    assert [] + user == user;
    n := UpdateAll(user, buf, base, 0, []);
    assert OnlyWithin(buf, base, end);
    if |pass| > 0 {
      n := Update(COLON, buf, base, n, user);
      assert OnlyWithin(buf, base, end);
      n := UpdateAll(pass, buf, base, n, user + [COLON]);
      assert OnlyWithin(buf, base, end);
    }
    n := Final(buf, base, n, Credentials(user, pass));
  }

  lemma HoldsNothing(buf: array<byte>, base: nat)
    requires base <= buf.Length
    ensures Holds(buf, base, 0, [])
  {
  }

  /** The label and the credentials; k is the length of the encoded credentials. */
  method WriteLabelled(buf: array<byte>, at: nat, user: seq<byte>, pass: seq<byte>) returns (k: nat)
    requires at + 21 + |Encode(Credentials(user, pass))| < buf.Length
    modifies buf
    ensures k == |Encode(Credentials(user, pass))|
    ensures buf[at..at + 21 + k] == AUTHORIZATION + Encode(Credentials(user, pass))
    ensures OnlyWithin(buf, at, at + 21 + k + 1)
  {
    hide Encode, Ascii, Credentials;
    CopyIn(buf, at, AUTHORIZATION);
    ghost var labelled := buf[..];
    assert labelled[at..at + 21] == AUTHORIZATION;
    assert labelled[..at] == old(buf[..at]);
    k := WriteCredentials(buf, at + 21, user, pass);
    Joined(labelled, buf[..], at, at + 21, at + 21 + k);
  }

  lemma Joined(a: seq<byte>, b: seq<byte>, i: nat, j: nat, k: nat)
    requires |a| == |b| && i <= j <= k <= |a| && forall x :: 0 <= x < j ==> a[x] == b[x]
    ensures b[i..k] == a[i..j] + b[j..k] && a[..i] == b[..i]
  {
  }

  /** The whole header line, at cell `at`. */
  method WriteLine(buf: array<byte>, at: nat, user: seq<byte>, pass: seq<byte>) returns (n: nat)
    requires at + 21 + |Encode(Credentials(user, pass))| + 2 <= buf.Length
    modifies buf
    ensures n == 21 + |Encode(Credentials(user, pass))| + 2
    ensures buf[at..at + n] == AUTHORIZATION + Encode(Credentials(user, pass)) + CRLF
    ensures OnlyWithin(buf, at, at + n)
  {
    hide Encode, Ascii, Credentials;
    var k := WriteLabelled(buf, at, user, pass);
    n := 21 + k + 2;
    ghost var line := buf[..];
    CopyIn(buf, at + 21 + k, CRLF);
    assert forall x :: 0 <= x < at + 21 + k ==> buf[x] == buf[..at + 21 + k][x] == line[..at + 21 + k][x] == line[x];
    Joined(line, buf[..], at, at + 21 + k, at + n);
  }

  /** Growing the buffer to `need` cells unless it has them; `ok` says whether it has them in the end. */
  method Reserve(send: IoBuf, need: nat, memory: bool) returns (ok: bool)
    requires send.Valid() && send.len < need
    modifies send, send.buf
    ensures send.Valid() && send.len == old(send.len) && ok == (old(send.size) >= need || memory)
    ensures ok ==> send.buf != null && need <= send.size
    ensures send.Contents() == old(send.Contents()) && (send.buf == old(send.buf) || fresh(send.buf))
  {
    ghost var s0, size0 := send.Contents(), send.size;
    if send.size < need {
      assert |s0| == send.len;
      var resized := send.Resize(need, memory);
      assert send.AsState() == State(s0, if resized then need else size0);
      assert |send.Contents()| == send.len;
    }
    ok := send.size >= need;
  }

  /** `mg_http_bauth`: the header line, written straight into the send buffer, or nothing without memory for it. */
  method Bauth(send: IoBuf, user: seq<byte>, pass: seq<byte>, memory: bool)
    requires send.Valid()
    modifies send, send.buf
    ensures send.Valid()
    ensures var room := old(send.size) >= old(send.len) + 36 + (|user| + |pass|) * 2;
            send.Contents() == old(send.Contents()) +
            if room || memory then AUTHORIZATION + Encode(Credentials(user, pass)) + CRLF else []
  {
    hide Encode, Settled, Ascii, Credentials;
    ghost var s0 := send.Contents();
    var need := send.len + 36 + (|user| + |pass|) * 2;
    RoomSuffices(user, pass);
    var ok := Reserve(send, need, memory);
    if ok {
      AppendLine(send, user, pass);
    } else {
      assert s0 + [] == s0;
    }
  }

  /** The line, in a buffer that has room for it. */
  method AppendLine(send: IoBuf, user: seq<byte>, pass: seq<byte>)
    requires send.Valid() && send.buf != null
    requires send.len + 21 + |Encode(Credentials(user, pass))| + 2 <= send.size
    modifies send`len, send.buf
    ensures send.Valid()
    ensures send.Contents() == old(send.Contents()) + (AUTHORIZATION + Encode(Credentials(user, pass)) + CRLF)
  {
    hide Encode, Settled, Ascii, Credentials;
    ghost var s0, len := send.Contents(), send.len;
    var n := WriteLine(send.buf, send.len, user, pass);
    send.len := send.len + n;
    assert send.buf[..len] == s0;
    assert send.Contents() == send.buf[..len] + send.buf[len..len + n];
  }

  // ---------- the alphabet and the layout of bits, with literal values ----------

  /** Table 1 of RFC 4648, and no index for any other character. */
  lemma Alphabet(i: byte)
    ensures i < 26 ==> B64Idx(i) == 65 + i
    ensures 26 <= i < 52 ==> B64Idx(i) == 97 + (i - 26)
    ensures 52 <= i < 62 ==> B64Idx(i) == 48 + (i - 52)
    ensures B64Idx(62) == 43 && B64Idx(63) == 47
    ensures B64Rev(i) < 64 ==> B64Idx(B64Rev(i)) == i
    ensures B64Rev(i) < 64 <==> IsLetter(i)
  {
  }

  /** Three bytes make four characters, most significant bits first. */
  lemma EncodeThree(a: byte, b: byte, c: byte, rest: seq<byte>)
    ensures Encode([a, b, c] + rest) ==
            [B64Idx(a >> 2), B64Idx(((a & 3) << 4) | (b >> 4)), B64Idx(((b & 15) << 2) | (c >> 6)), B64Idx(c & 63)]
            + Encode(rest)
  {
    hide Group, B64Idx;
    GroupChars(a, b, c);
    var m := [a, b, c] + rest;
    assert m[3..] == rest && m[0] == a && m[1] == b && m[2] == c;
  }

  /** One or two last bytes make two or three characters, and '=' up to four. */
  lemma EncodeLast(a: byte, b: byte)
    ensures Encode([]) == []
    ensures Encode([a]) == [B64Idx(a >> 2), B64Idx((a & 3) << 4), 61, 61]
    ensures Encode([a, b]) == [B64Idx(a >> 2), B64Idx(((a & 3) << 4) | (b >> 4)), B64Idx((b & 15) << 2), 61]
  {
    hide Group, B64Idx;
    GroupChars(a, 0, 0);
    GroupChars(a, b, 0);
    assert (0 as byte) >> 4 == 0 && (0 as byte) >> 6 == 0;
    OrZero((a & 3) << 4);
    OrZero((b & 15) << 2);
  }

  lemma OrZero(x: byte)
    ensures x | 0 == x
  {
  }

  predicate IsLetter(c: byte) { 65 <= c <= 90 || 97 <= c <= 122 || 48 <= c <= 57 || c == 43 || c == 47 }

  /** What a group of four characters decodes to, and which groups are rejected. */
  lemma DecodeFour(a: byte, b: byte, c: byte, d: byte, rest: seq<byte>)
    ensures var x, y, z, w := B64Rev(a), B64Rev(b), B64Rev(c), B64Rev(d);
            var valid := IsLetter(a) && IsLetter(b) && (IsLetter(c) || c == 61) && (IsLetter(d) || d == 61);
            var bytes := if c == 61 then [(x << 2) | (y >> 4)]
                         else if d == 61 then [(x << 2) | (y >> 4), (y << 4) | (z >> 2)]
                         else [(x << 2) | (y >> 4), (y << 4) | (z >> 2), (z << 6) | w];
            Decode([a, b, c, d] + rest) ==
            if valid && Decode(rest).Some? then Some(bytes + Decode(rest).value) else None
    ensures |rest| < 4 ==> Decode(rest) == Some([])
  {
    hide B64Rev, Decode;
    RevLetter(a);
    RevLetter(b);
    RevLetter(c);
    RevLetter(d);
    var s := [a, b, c, d] + rest;
    assert s[4..] == rest && s[0] == a && s[1] == b && s[2] == c && s[3] == d && s[0..] == s;
    DecodeStep(s, 0);
    if |rest| < 4 {
      DecodeShort(rest);
    }
  }

  lemma RevLetter(c: byte)
    ensures B64Rev(c) < 64 <==> IsLetter(c)
    ensures B64Rev(c) == 64 <==> c == 61
    ensures B64Rev(c) <= 64 || B64Rev(c) == 255
  {
  }

  /** The header line: the label, the credentials that decode to user, ':' and password, the line end. */
  lemma HeaderLine(user: seq<byte>, pass: seq<byte>)
    ensures |AUTHORIZATION| == 21
    ensures forall i :: 0 <= i < 21 ==> AUTHORIZATION[i] as int == "Authorization: Basic "[i] as int
    ensures CRLF == [13, 10]
    ensures Decode(Encode(Credentials(user, pass))) == Some(if pass == [] then user else user + [58] + pass)
  {
    DecodeEncode(Credentials(user, pass));
    forall i | 0 <= i < 21 ensures AUTHORIZATION[i] as int == "Authorization: Basic "[i] as int {
      assert Num(AUTHORIZATION[i]) == "Authorization: Basic "[i] as int;
    }
  }
}
