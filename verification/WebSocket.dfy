/** The RFC 6455 framer, the receive handler of an established WebSocket, and the frame encoder. */
module WebSocket {
  import opened Bytes
  import opened IoBuf
  import opened Stream

  const TWO64: nat := 0x1_0000_0000_0000_0000

  const OP_CONTINUE: byte := 0
  const OP_TEXT: byte := 1
  const OP_BINARY: byte := 2
  const OP_CLOSE: byte := 8
  const OP_PING: byte := 9
  const OP_PONG: byte := 10

  // ---------- framing ----------

  datatype WsMsg = WsMsg(flags: byte, headerLen: nat, dataLen: nat)

  predicate HasMask(s: seq<byte>) { |s| >= 2 && s[1] & 0x80 != 0 }

  function MaskLen(s: seq<byte>): nat { if HasMask(s) then 4 else 0 }

  function ShortLen(s: seq<byte>): nat
    requires |s| >= 2
  {
    Num(s[1] & 0x7f)
  }

  /** What the start of the buffer declares; both lengths are 0 while the header is incomplete. */
  function Declared(s: seq<byte>): (m: WsMsg)
    ensures m.headerLen > 0 ==> |s| >= 2 && m.headerLen >= 2 + MaskLen(s)
    ensures m.headerLen == 0 ==> m.dataLen == 0
  {
    if |s| < 2 then WsMsg(0, 0, 0)
    else
      var n, k := ShortLen(s), MaskLen(s);
      if n < 126 && |s| >= k then WsMsg(s[0], 2 + k, n)
      else if n == 126 && |s| >= 4 + k then WsMsg(s[0], 4 + k, U16(s[2], s[3]))
      else if |s| >= 10 + k then WsMsg(s[0], 10 + k, TWO32 * U32(s[2..6]) + U32(s[6..10]))
      else WsMsg(s[0], 0, 0)
  }

  /** The length of the first frame, or 0 if it is not all there. */
  function FrameLen(s: seq<byte>): (n: nat)
    ensures n <= |s| && (n > 0 ==> n >= Declared(s).headerLen >= 2)
  {
    var m := Declared(s);
    if m.headerLen + m.dataLen > |s| then 0 else m.headerLen + m.dataLen
  }

  /** The masking of section 5.3 of RFC 6455. */
  function Xored(data: seq<byte>, key: seq<byte>): (r: seq<byte>)
    requires |key| == 4
    ensures |r| == |data| && forall i :: 0 <= i < |data| ==> r[i] == data[i] ^ key[i % 4]
  {
    seq(|data|, i requires 0 <= i < |data| => data[i] ^ key[i % 4])
  }

  lemma XoredTwice(data: seq<byte>, key: seq<byte>)
    requires |key| == 4
    ensures Xored(Xored(data, key), key) == data
  {
    forall i | 0 <= i < |data| ensures Xored(Xored(data, key), key)[i] == data[i] {
      XorTwice(data[i], key[i % 4]);
    }
  }

  /** The unmasked payload of the first frame. */
  function Payload(s: seq<byte>): seq<byte>
    requires FrameLen(s) > 0
  {
    var m := Declared(s);
    var data := s[m.headerLen..FrameLen(s)];
    if HasMask(s) then Xored(data, s[m.headerLen - 4..m.headerLen]) else data
  }

  /** The buffer with the first frame unmasked in place. */
  function Unmasked(s: seq<byte>): seq<byte>
    requires FrameLen(s) > 0
  {
    s[..Declared(s).headerLen] + Payload(s) + s[FrameLen(s)..]
  }

  /** The in-place loop `p[i] ^= m[i & 3]` over n bytes that follow their 4-byte key. */
  method XorInPlace(buf: array<byte>, p: nat, n: nat)
    requires 4 <= p && p + n <= buf.Length
    modifies buf
    ensures buf[..p] == old(buf[..p]) && buf[p + n..] == old(buf[p + n..])
    ensures buf[p..p + n] == Xored(old(buf[p..p + n]), old(buf[p - 4..p]))
  {
    ghost var s, key := buf[..], buf[p - 4..p];
    for i := 0 to n
      invariant forall k :: 0 <= k < buf.Length ==>
        buf[k] == if p <= k < p + i then s[k] ^ key[(k - p) % 4] else s[k]
    {
      assert buf[p - 4 + i % 4] == key[i % 4];
      buf[p + i] := buf[p + i] ^ buf[p - 4 + i % 4];
    }
  }

  /** The 7-bit length and the length of the mask, both from the second byte. */
  method ReadSecond(buf: array<byte>, len: nat) returns (n: nat, maskLen: nat)
    requires 2 <= len <= buf.Length
    ensures n == ShortLen(buf[..len]) && maskLen == MaskLen(buf[..len])
  {
    hide Num;
    assert buf[..len][1] == buf[1];
    n := Num(buf[1] & 0x7f);
    maskLen := if buf[1] & 0x80 != 0 then 4 else 0;
  }

  /** `mg_ntohs` of the bytes after the second. */
  method ReadShort(buf: array<byte>, len: nat) returns (n: nat)
    requires 4 <= len <= buf.Length
    ensures n == U16(buf[..len][2], buf[..len][3])
  {
    n := U16(buf[2], buf[3]);
  }

  /** The two `mg_ntohl` of the bytes after the second, put together in 64 bits. */
  method ReadLong(buf: array<byte>, len: nat) returns (n: nat)
    requires 10 <= len <= buf.Length
    ensures n == TWO32 * U32(buf[..len][2..6]) + U32(buf[..len][6..10])
  {
    hide U32;
    assert buf[..len][2..6] == buf[2..6] && buf[..len][6..10] == buf[6..10];
    n := TWO32 * U32(buf[2..6]) + U32(buf[6..10]);
  }

  /** The header part of `ws_process`. */
  method ReadHeader(buf: array<byte>, len: nat) returns (maskLen: nat, msg: WsMsg)
    requires len <= buf.Length
    ensures msg == Declared(buf[..len]) && maskLen == MaskLen(buf[..len])
  {
    hide *;
    ghost var s := buf[..len];
    maskLen := 0;
    msg := WsMsg(0, 0, 0);
    DeclaredAs(s);
    if len >= 2 {
      var n;
      n, maskLen := ReadSecond(buf, len);
      msg := WsMsg(buf[0], 0, 0);
      if n < 126 && len >= maskLen {
        msg := msg.(dataLen := n, headerLen := 2 + maskLen);
      } else if n == 126 && len >= 4 + maskLen {
        var dataLen := ReadShort(buf, len);
        msg := msg.(headerLen := 4 + maskLen, dataLen := dataLen);
      } else if len >= 10 + maskLen {
        var dataLen := ReadLong(buf, len);
        msg := msg.(headerLen := 10 + maskLen, dataLen := dataLen);
      }
    }
  }

  lemma DeclaredAs(s: seq<byte>)
    ensures |s| < 2 ==> Declared(s) == WsMsg(0, 0, 0) && MaskLen(s) == 0
    ensures |s| >= 2 ==>
              var n, k := ShortLen(s), MaskLen(s);
              Declared(s) ==
              if n < 126 && |s| >= k then WsMsg(s[0], 2 + k, n)
              else if n == 126 && |s| >= 4 + k then WsMsg(s[0], 4 + k, U16(s[2], s[3]))
              else if |s| >= 10 + k then WsMsg(s[0], 10 + k, TWO32 * U32(s[2..6]) + U32(s[6..10]))
              else WsMsg(s[0], 0, 0)
  {
  }

  /** The unmasking part of `ws_process`. */
  method UnmaskFrame(buf: array<byte>, len: nat, msg: WsMsg)
    requires len <= buf.Length && msg == Declared(buf[..len])
    requires FrameLen(buf[..len]) > 0 && HasMask(buf[..len])
    modifies buf
    ensures buf[..len] == Unmasked(old(buf[..len])) && buf[len..] == old(buf[len..])
  {
    hide Declared, Xored, Unmasked, HasMask;
    ghost var s, all := buf[..len], buf[..];
    MaskedHeader(s);
    XorInPlace(buf, msg.headerLen, msg.dataLen);
    SamePieces(all, buf[..], len, msg.headerLen, FrameLen(s));
    UnmaskedParts(s, buf[..len]);
  }

  lemma MaskedHeader(s: seq<byte>)
    requires FrameLen(s) > 0 && HasMask(s)
    ensures Declared(s).headerLen >= 6 && FrameLen(s) == Declared(s).headerLen + Declared(s).dataLen
  {
  }

  /** What `ws_process` returns: its sum of the two lengths is a 64-bit sum. */
  function Returned(s: seq<byte>): nat {
    var sum := (Declared(s).headerLen + Declared(s).dataLen) % TWO64;
    if sum > |s| then 0 else sum
  }

  /** One past the last cell that the unmasking of `ws_process` touches, 0 if there is none. */
  function Reach(s: seq<byte>): nat {
    var m := Declared(s);
    if (m.headerLen + m.dataLen) % TWO64 > |s| || !HasMask(s) || m.dataLen == 0 then 0 else m.headerLen + m.dataLen
  }

  /** The lengths of the first frame, if it is masked, have a sum that does not wrap. */
  predicate SumHolds(s: seq<byte>) {
    HasMask(s) ==> Declared(s).headerLen + Declared(s).dataLen < TWO64
  }

  /** `ws_process` stays within the bytes held if and only if the sum does not wrap on a masked frame. */
  lemma StaysWithin(s: seq<byte>)
    requires |s| < TWO64
    ensures Reach(s) <= |s| <==> SumHolds(s)
  {
    hide U16, U32;
    var m := Declared(s);
    var sum := m.headerLen + m.dataLen;
    assert m.headerLen <= 14 && m.dataLen < TWO64;
    if sum >= TWO64 {
      assert sum % TWO64 == sum - TWO64 < m.headerLen <= |s|;
    } else {
      assert sum % TWO64 == sum;
    }
  }

  /** A masked frame whose sum wraps: the unmasking leaves the buffer. */
  lemma MaskedSumWraps(key: seq<byte>)
    requires |key| == 4
    ensures var s := [0x82, 0xff] + Ones() + key;
            !SumHolds(s) && Reach(s) > |s|
  {
    var s := [0x82, 0xff] + Ones() + key;
    assert s[2..10] == Ones();
    OnesRead(s);
    assert HasMask(s) && ShortLen(s) == 127;
    assert Declared(s) == WsMsg(0x82, 14, TWO64 - 1);
    StaysWithin(s);
  }

  /** Eight bytes that declare a payload of 2^64 - 1 bytes. */
  function Ones(): seq<byte> { [0xff, 0xff, 0xff, 0xff, 0xff, 0xff, 0xff, 0xff] }

  lemma OnesRead(s: seq<byte>)
    requires |s| >= 10 && s[2..10] == Ones()
    ensures TWO32 * U32(s[2..6]) + U32(s[6..10]) == TWO64 - 1
  {
    assert s[2..6] == s[2..10][..4] && s[6..10] == s[2..10][4..];
  }

  /** What the handler's round touches, and the span it passes on, lie within the bytes held. */
  predicate RoundInside(s: seq<byte>) {
    && Reach(s) <= |s|
    && (Returned(s) > 0 ==> Declared(s).headerLen + Declared(s).dataLen <= |s|)
  }

  /** The sum of the first frame's lengths does not wrap, or wraps to 0 on a frame without a mask. */
  predicate SumInside(s: seq<byte>) {
    var sum := Declared(s).headerLen + Declared(s).dataLen;
    sum < TWO64 || (sum == TWO64 && !HasMask(s))
  }

  lemma RoundInsideIff(s: seq<byte>)
    requires |s| < TWO64
    ensures RoundInside(s) <==> SumInside(s)
  {
    hide Declared, HasMask;
    StaysWithin(s);
    DeclaredBounds(s);
    var sum := Declared(s).headerLen + Declared(s).dataLen;
    if sum < TWO64 {
      assert sum % TWO64 == sum;
    } else {
      assert sum % TWO64 == sum - TWO64;
    }
  }

  lemma DeclaredBounds(s: seq<byte>)
    ensures Declared(s).headerLen <= 14 && Declared(s).dataLen < TWO64
    ensures Declared(s).headerLen + Declared(s).dataLen >= TWO64 ==> Declared(s).headerLen <= |s|
  {
    hide U16, U32, Num;
  }

  /** Every round the handler makes on a stream stays inside. */
  predicate AllInside(s: seq<byte>)
    decreases |s|
  {
    RoundInside(s) && (FrameLen(s) > 0 ==> AllInside(s[FrameLen(s)..]))
  }

  predicate SumsInside(s: seq<byte>)
    decreases |s|
  {
    SumInside(s) && (FrameLen(s) > 0 ==> SumsInside(s[FrameLen(s)..]))
  }

  /** The handler stays inside the bytes held if and only if no sum wraps, except to 0 without a mask. */
  lemma {:induction false} AllInsideIff(s: seq<byte>)
    requires |s| < TWO64
    ensures AllInside(s) <==> SumsInside(s)
    decreases |s|
  {
    hide RoundInside, SumInside, Declared;
    RoundInsideIff(s);
    if FrameLen(s) > 0 {
      AllInsideIff(s[FrameLen(s)..]);
    }
  }

  /** A frame without a mask whose sum wraps to 9: the span passed on leaves the buffer. */
  lemma PassedOutside()
    ensures var s := [0x82, 0x7f] + Ones();
            Returned(s) == 9 && Declared(s).dataLen == TWO64 - 1 && !RoundInside(s)
  {
    var s := [0x82, 0x7f] + Ones();
    assert s[2..10] == Ones();
    OnesRead(s);
    assert !HasMask(s) && ShortLen(s) == 127;
    assert Declared(s) == WsMsg(0x82, 10, TWO64 - 1);
  }

  /** Without a wrap the frame's length is returned, or 0 if the frame is not all there. */
  lemma ReturnedIsFrameLen(s: seq<byte>)
    requires Declared(s).headerLen + Declared(s).dataLen < TWO64
    ensures Returned(s) == FrameLen(s)
  {
    hide Declared;
  }

  /**
   `ws_process` on the first `len` bytes of the buffer, within which it stays. A frame that is all
   there is unmasked; otherwise the buffer is untouched.
   */
  method Process(buf: array<byte>, len: nat) returns (n: nat, msg: WsMsg)
    requires len <= buf.Length && SumHolds(buf[..len])
    modifies buf
    ensures msg == Declared(old(buf[..len])) && n == Returned(old(buf[..len]))
    ensures FrameLen(old(buf[..len])) == 0 ==> buf[..] == old(buf[..])
    ensures FrameLen(old(buf[..len])) > 0 ==> buf[..len] == Unmasked(old(buf[..len])) && buf[len..] == old(buf[len..])
  {
    hide Declared, Xored, Unmasked, HasMask;
    ghost var s := buf[..len];
    var maskLen;
    maskLen, msg := ReadHeader(buf, len);
    n := (msg.headerLen + msg.dataLen) % TWO64;
    if n > len {
      n := 0;
      return;
    }
    ProcessCases(s);
    if maskLen > 0 && msg.dataLen > 0 {
      UnmaskFrame(buf, len, msg);
    }
  }

  /** What the return value says once it is known to be in range. */
  lemma ProcessCases(s: seq<byte>)
    requires SumHolds(s) && (Declared(s).headerLen + Declared(s).dataLen) % TWO64 <= |s|
    ensures HasMask(s) && Declared(s).dataLen > 0 ==> FrameLen(s) > 0
    ensures FrameLen(s) > 0 && (!HasMask(s) || Declared(s).dataLen == 0) ==> Unmasked(s) == s
  {
    hide Declared, Unmasked, HasMask;
    var m := Declared(s);
    if HasMask(s) {
      Unwrapped(m.headerLen + m.dataLen);
    }
    if FrameLen(s) > 0 && (!HasMask(s) || m.dataLen == 0) {
      UnmaskedSame(s);
    }
  }

  lemma Unwrapped(sum: nat)
    requires sum < TWO64
    ensures sum % TWO64 == sum
  {
  }

  lemma UnmaskedSame(s: seq<byte>)
    requires FrameLen(s) > 0 && (!HasMask(s) || Declared(s).dataLen == 0)
    ensures Unmasked(s) == s
  {
    hide Declared, HasMask;
    var h, n := Declared(s).headerLen, FrameLen(s);
    assert s == s[..h] + s[h..n] + s[n..];
    assert Payload(s) == s[h..n];
  }

  /** What an update confined to [h, n) leaves alone, read off the prefix of length `len`. */
  lemma SamePieces(a: seq<byte>, b: seq<byte>, len: nat, h: nat, n: nat)
    requires h <= n <= len <= |a| == |b| && a[..h] == b[..h] && a[n..] == b[n..]
    ensures b[..len][..h] == a[..len][..h] && b[..len][n..] == a[..len][n..] && b[len..] == a[len..]
    ensures b[..len][h..n] == b[h..n] && a[..len][h..n] == a[h..n]
    ensures h >= 4 ==> a[..len][h - 4..h] == a[h - 4..h]
  {
    assert a[len..] == a[n..][len - n..] && b[len..] == b[n..][len - n..];
    assert a[..len][n..] == a[n..][..len - n] && b[..len][n..] == b[n..][..len - n];
    assert a[..len][..h] == a[..h] && b[..len][..h] == b[..h];
  }

  lemma UnmaskedParts(s: seq<byte>, t: seq<byte>)
    requires FrameLen(s) > 0 && HasMask(s) && |t| == |s|
    requires var h := Declared(s).headerLen;
             t[..h] == s[..h] && t[h..FrameLen(s)] == Xored(s[h..FrameLen(s)], s[h - 4..h])
             && t[FrameLen(s)..] == s[FrameLen(s)..]
    ensures t == Unmasked(s)
  {
    hide Declared, Xored;
    var h, n := Declared(s).headerLen, FrameLen(s);
    assert t == t[..h] + t[h..n] + t[n..];
  }

  // ---------- the receive handler ----------

  datatype Event = Msg(flags: byte, data: seq<byte>) | Ctl(flags: byte, data: seq<byte>) | Pong(data: seq<byte>)
                 | Error(op: byte) | ReadFailed(full: bool)

  function Op(flags: byte): byte { flags & 0x0f }

  /** The callbacks, and the reply to a ping, for one frame. */
  function EventsOf(flags: byte, data: seq<byte>): seq<Event> {
    var op := Op(flags);
    if op == OP_TEXT || op == OP_BINARY then [Msg(flags, data)]
    else if op == OP_PING then [Pong(data), Ctl(flags, data)]
    else if op == OP_CONTINUE || op == OP_PONG || op == OP_CLOSE then [Ctl(flags, data)]
    else [Error(op)]
  }

  predicate Closes(flags: byte) {
    Op(flags) !in {OP_CONTINUE, OP_TEXT, OP_BINARY, OP_PING, OP_PONG}
  }

  function Drain(s: seq<byte>): Outcome<Event>
    decreases |s|
  {
    if FrameLen(s) == 0 then Outcome([], s, false)
    else
      var flags, o := Declared(s).flags, Drain(s[FrameLen(s)..]);
      Outcome(EventsOf(flags, Payload(s)) + o.events, o.rest, Closes(flags) || o.closing)
  }

  /** No frame of the stream declares lengths whose 64-bit sum wraps. */
  predicate StreamFits(s: seq<byte>)
    decreases |s|
  {
    var m := Declared(s);
    m.headerLen + m.dataLen < TWO64 && (FrameLen(s) > 0 ==> StreamFits(s[FrameLen(s)..]))
  }

  /** A complete header is not changed by more bytes. */
  lemma HeaderStable(s: seq<byte>, t: seq<byte>)
    requires Declared(s).headerLen > 0
    ensures Declared(s + t) == Declared(s) && HasMask(s + t) == HasMask(s)
  {
    hide U32, U16, Num;
    assert (s + t)[0] == s[0] && (s + t)[1] == s[1];
    assert |s| >= 4 ==> (s + t)[2] == s[2] && (s + t)[3] == s[3];
    assert |s| >= 10 ==> (s + t)[2..6] == s[2..6] && (s + t)[6..10] == s[6..10];
  }

  /** A complete frame is not changed by more bytes. */
  lemma FrameStable(s: seq<byte>, t: seq<byte>)
    requires FrameLen(s) > 0
    ensures Declared(s + t) == Declared(s) && FrameLen(s + t) == FrameLen(s) && Payload(s + t) == Payload(s)
  {
    hide Declared, Xored;
    HeaderStable(s, t);
    var h, n := Declared(s).headerLen, FrameLen(s);
    assert (s + t)[h..n] == s[h..n];
    assert h >= 4 ==> (s + t)[h - 4..h] == s[h - 4..h];
  }

  lemma DrainOne(s: seq<byte>)
    requires FrameLen(s) > 0
    ensures Drain(s) == Then(Outcome(EventsOf(Declared(s).flags, Payload(s)), [], Closes(Declared(s).flags)),
                             Drain(s[FrameLen(s)..]))
  {
  }

  lemma {:induction false} DrainSplit(s: seq<byte>, t: seq<byte>)
    ensures Drain(s + t) == Then(Drain(s), Drain(Drain(s).rest + t))
    decreases |s|
  {
    hide Declared, EventsOf, Closes, Payload, Drain, FrameLen;
    if FrameLen(s) > 0 {
      FrameStable(s, t);
      var rest := s[FrameLen(s)..];
      DrainSplit(rest, t);
      assert (s + t)[FrameLen(s)..] == rest + t;
      DrainOne(s);
      DrainOne(s + t);
      var one := Outcome(EventsOf(Declared(s).flags, Payload(s)), [], Closes(Declared(s).flags));
      ThenAssoc(one, Drain(rest), Drain(Drain(rest).rest + t));
    } else {
      DrainStops(s);
      assert [] + Drain(s + t).events == Drain(s + t).events;
    }
  }

  lemma DrainStops(s: seq<byte>)
    requires FrameLen(s) == 0
    ensures Drain(s) == Outcome([], s, false)
  {
  }

  lemma {:induction false} FitsSplit(s: seq<byte>, t: seq<byte>)
    requires StreamFits(s + t)
    ensures StreamFits(s) && StreamFits(Drain(s).rest + t)
    decreases |s|
  {
    hide Declared, EventsOf, Closes, Payload;
    if FrameLen(s) > 0 {
      FrameStable(s, t);
      assert (s + t)[FrameLen(s)..] == s[FrameLen(s)..] + t;
      FitsSplit(s[FrameLen(s)..], t);
    } else {
      FitsPrefix(s, t);
    }
  }

  lemma FitsPrefix(s: seq<byte>, t: seq<byte>)
    requires FrameLen(s) == 0 && StreamFits(s + t)
    ensures StreamFits(s)
  {
    if Declared(s).headerLen > 0 {
      HeaderStable(s, t);
    }
  }

  lemma DrainSplits()
    ensures Splits(Drain)
  {
    hide Drain;
    DrainNothing();
    forall s: seq<byte>, t: seq<byte> ensures Drain(s + t) == Then(Drain(s), Drain(Drain(s).rest + t)) {
      DrainSplit(s, t);
    }
  }

  /** However the bytes are split across reads, the same frames with the same unmasked payloads are delivered. */
  lemma Fragmentation(chunks: seq<seq<byte>>)
    ensures Feed(Drain, chunks) == Drain(Flatten(chunks))
  {
    DrainSplits();
    FeedsWhole(Drain, chunks);
  }

  lemma DrainNothing()
    ensures Drain([]) == Outcome([], [], false)
  {
  }

  /** One round of the handler's loop. */
  lemma OneFrame(log: seq<Event>, closing: bool, s: seq<byte>)
    requires FrameLen(s) > 0 && StreamFits(s)
    ensures Then(Outcome(log, [], closing), Drain(s)) ==
            Then(Outcome(log + EventsOf(Declared(s).flags, Payload(s)), [], closing || Closes(Declared(s).flags)),
                 Drain(s[FrameLen(s)..]))
    ensures StreamFits(s[FrameLen(s)..])
  {
    hide Declared, EventsOf, Closes, Payload;
    DrainOne(s);
    var one := Outcome(EventsOf(Declared(s).flags, Payload(s)), [], Closes(Declared(s).flags));
    ThenAssoc(Outcome(log, [], closing), one, Drain(s[FrameLen(s)..]));
  }

  lemma FitsNow(s: seq<byte>)
    requires StreamFits(s)
    ensures Declared(s).headerLen + Declared(s).dataLen < TWO64
  {
  }

  /** Where the payload stands once the frame has been unmasked in place. */
  lemma UnmaskedPieces(s: seq<byte>)
    requires FrameLen(s) > 0
    ensures var u, h, n := Unmasked(s), Declared(s).headerLen, FrameLen(s);
            |u| == |s| && h <= n && u[h..n] == Payload(s) && u[n..] == s[n..]
  {
    hide Declared, Xored;
  }

  /** The state after the bytes of `stream`; a read that has failed came after all of them. */
  predicate Handled(stream: seq<byte>, log: seq<Event>, rest: seq<byte>, isClosing: bool, failure: Failure) {
    var o := Drain(stream);
    && log == o.events + (if failure.Broken? then [ReadFailed(failure.full)] else [])
    && rest == o.rest && isClosing == (o.closing || failure != Fine)
  }

  /** The receiving side of an established connection. The callbacks and replies are recorded in `log`. */
  class Receiver {
    const recv: IoBuf
    var log: seq<Event>
    var isClosing: bool
    ghost var failure: Failure    // whether a read has failed
    ghost var stream: seq<byte>   // every byte read so far, masked as it arrived

    /** The whole state is a function of the bytes read, not of how they arrived. */
    ghost predicate Valid()
      reads this, recv, recv.buf
    {
      && recv.Valid() && StreamFits(stream)
      && Handled(stream, log, recv.Contents(), isClosing, failure)
    }

    constructor ()
      ensures Valid() && stream == [] && !isClosing
    {
      recv := new IoBuf();
      log, isClosing, failure, stream := [], false, Fine, [];
      new;
      assert Drain([]) == Outcome([], [], false);
      assert recv.Contents() == recv.AsState().held == [];
    }

    /** `ws_process` on the receive buffer. */
    method ProcessRecv() returns (n: nat, msg: WsMsg)
      requires recv.Valid() && StreamFits(recv.Contents())
      modifies recv.buf
      ensures recv.Valid() && msg == Declared(old(recv.Contents())) && n == FrameLen(old(recv.Contents()))
      ensures recv.Contents() == if n == 0 then old(recv.Contents()) else Unmasked(old(recv.Contents()))
    {
      hide Declared, Unmasked, StreamFits;
      FitsNow(recv.Contents());
      ReturnedIsFrameLen(recv.Contents());
      if recv.buf == null {
        msg := WsMsg(0, 0, 0);
        NothingDeclared();
        return 0, msg;
      }
      ghost var tail := recv.buf[recv.len..];
      n, msg := Process(recv.buf, recv.len);
      assert recv.buf[recv.len..] == recv.buf[..][recv.len..] && recv.buf[..recv.len] == recv.buf[..][..recv.len];
      assert n == 0 ==> recv.buf[recv.len..] == tail;
      assert forall i :: recv.len <= i < recv.size ==> recv.buf[i] == recv.buf[recv.len..][i - recv.len];
    }

    /** The loop of `mg_ws_cb` on a read event. */
    method WsCb()
      requires recv.Valid() && StreamFits(recv.Contents())
      modifies this`log, this`isClosing, recv, recv.buf
      ensures recv.Valid() && recv.buf == old(recv.buf)
      ensures Outcome(log, recv.Contents(), isClosing) ==
              Then(Outcome(old(log), [], old(isClosing)), Drain(old(recv.Contents())))
    {
      hide Drain, StreamFits, FrameLen;
      ghost var s0 := recv.Contents();
      var more := true;
      while more
        invariant recv.Valid() && recv.buf == old(recv.buf)
        invariant more ==> StreamFits(recv.Contents())
        invariant Then(Outcome(old(log), [], old(isClosing)), Drain(s0)) ==
                  if more then Then(Outcome(log, [], isClosing), Drain(recv.Contents()))
                  else Outcome(log, recv.Contents(), isClosing)
        decreases more, recv.len
      {
        ghost var s := recv.Contents();
        more := HandleFrame();
        if !more {
          DrainStops(s);
        }
      }
    }

    /** One round of the loop: handle the first frame and delete it, or find that it is not all there. */
    method HandleFrame() returns (more: bool)
      requires recv.Valid() && StreamFits(recv.Contents())
      modifies this`log, this`isClosing, recv, recv.buf
      ensures recv.Valid() && recv.buf == old(recv.buf)
      ensures more == (FrameLen(old(recv.Contents())) > 0)
      ensures !more ==> log == old(log) && isClosing == old(isClosing) && recv.Contents() == old(recv.Contents())
      ensures more ==> StreamFits(recv.Contents()) && recv.len < old(recv.len)
      ensures more ==> Then(Outcome(old(log), [], old(isClosing)), Drain(old(recv.Contents()))) ==
                       Then(Outcome(log, [], isClosing), Drain(recv.Contents()))
    {
      hide Declared, Drain, Payload, StreamFits, Unmasked, EventsOf, Closes, Then;
      ghost var s := recv.Contents();
      var n, msg := ProcessRecv();
      if n == 0 {
        return false;
      }
      OneFrame(log, isClosing, s);
      UnmaskedPieces(s);
      var data := recv.buf[msg.headerLen..msg.headerLen + msg.dataLen];
      assert n == msg.headerLen + msg.dataLen <= recv.len;
      assert data == recv.Contents()[msg.headerLen..n];
      Dispatch(msg.flags, data);
      var deleted := recv.Delete(msg.headerLen + msg.dataLen);
      more := true;
    }

    /** The opcode switch of `mg_ws_cb`. */
    method Dispatch(flags: byte, data: seq<byte>)
      modifies this`log, this`isClosing
      ensures log == old(log) + EventsOf(flags, data)
      ensures isClosing == (old(isClosing) || Closes(flags))
    {
      var op := flags & 0x0f;
      if op == OP_CONTINUE {
        log := log + [Ctl(flags, data)];
      } else if op == OP_PING {
        log := log + [Pong(data)];
        log := log + [Ctl(flags, data)];
      } else if op == OP_PONG {
        log := log + [Ctl(flags, data)];
      } else if op == OP_TEXT || op == OP_BINARY {
        log := log + [Msg(flags, data)];
      } else if op == OP_CLOSE {
        log := log + [Ctl(flags, data)];
        isClosing := true;
      } else {
        log := log + [Error(op)];
        isClosing := true;
      }
    }

    /** The read event for bytes that have just been taken into the buffer. */
    method Arrived(data: seq<byte>)
      requires recv.Valid() && failure == Fine && StreamFits(stream + data)
      requires var o := Drain(stream);
               log == o.events && recv.Contents() == o.rest + data && !isClosing && !o.closing
      modifies this`log, this`isClosing, this`stream, recv, recv.buf
      ensures Valid() && stream == old(stream) + data
    {
      hide Drain, StreamFits;
      FitsSplit(stream, data);
      DrainSplit(stream, data);
      WsCb();
      stream := stream + data;
    }

    /**
     `read_conn`, which the poll loop calls unless the connection is to close: take pending bytes and
     fire the read event. A buffer that is full or cannot grow (`broken`), a closed socket or a socket
     error (`hangup`) marks the connection for closing.
     */
    method ReadConn(pending: seq<byte>, memory: bool, hangup: bool) returns (n: nat, broken: bool)
      requires Valid() && !isClosing && StreamFits(stream + pending)
      modifies this, recv, recv.buf
      ensures Valid() && n <= |pending| && stream == old(stream) + pending[..n]
      ensures broken <==> old(recv.len) >= MAX_RECV || (old(recv.size) - old(recv.len) < IO_SIZE && !memory)
      ensures broken || hangup ==> n == 0
      ensures !broken && !hangup && pending != [] ==> n > 0
      ensures failure == if broken then Broken(old(recv.len) >= MAX_RECV) else if hangup then HungUp else Fine
    {
      hide Drain, StreamFits;
      assert stream + pending[..0] == stream;
      var arriving := if hangup then [] else pending;
      n, broken := recv.Receive(arriving, memory);
      if broken {
        log := log + [ReadFailed(recv.len >= MAX_RECV)];
        isClosing := true;
        failure := Broken(recv.len >= MAX_RECV);
      } else if hangup {
        isClosing := true;
        failure := HungUp;
      } else if n > 0 {
        assert stream + pending == (stream + pending[..n]) + pending[n..];
        FitsSplit(stream + pending[..n], pending[n..]);
        Arrived(pending[..n]);
      }
    }
  }

  lemma NothingDeclared()
    ensures Declared([]) == WsMsg(0, 0, 0) && FrameLen([]) == 0
  {
  }

  // ---------- sending ----------

  /** `mkhdr`; the key stands for the four bytes drawn by `mg_random`. */
  function Mkhdr(len: nat, op: byte, isClient: bool, key: seq<byte>): (h: seq<byte>)
    requires len < TWO64 && |key| == 4
    ensures |h| == (if len < 126 then 2 else if len < 65536 then 4 else 10) + (if isClient then 4 else 0)
    ensures h[0] == op | 0x80 && (isClient ==> h[|h| - 4..] == key)
  {
    var mask: byte := if isClient then 0x80 else 0;
    (if len < 126 then [op | 0x80, Byte(len) | mask]
     else if len < 65536 then [op | 0x80, 126 | mask] + Be16(len)
     else [op | 0x80, 127 | mask] + Be32(len / TWO32) + Be32(len % TWO32))
    + if isClient then key else []
  }

  function FrameBytes(payload: seq<byte>, op: byte, isClient: bool, key: seq<byte>): seq<byte>
    requires |payload| < TWO64 && |key| == 4
  {
    Mkhdr(|payload|, op, isClient, key) + if isClient then Xored(payload, key) else payload
  }

  /** The last `len` bytes masked with the four bytes before them. */
  function MaskedTail(s: seq<byte>, len: nat): seq<byte>
    requires len + 4 <= |s|
  {
    s[..|s| - len] + Xored(s[|s| - len..], s[|s| - len - 4..|s| - len])
  }

  /** `mg_ws_mask` has something to mask: it is a client's, not empty, and there is a buffer. */
  predicate Masks(st: State, len: nat, isClient: bool) { isClient && len > 0 && st.size > 0 }

  /** The masking stays within the bytes held. */
  predicate MaskInside(st: State, len: nat, isClient: bool) {
    Masks(st, len, isClient) ==> len + 4 <= |st.held|
  }

  /** The bytes held after `mg_ws_mask`. */
  function AfterMask(st: State, len: nat, isClient: bool): seq<byte>
    requires MaskInside(st, len, isClient)
  {
    if Masks(st, len, isClient) then MaskedTail(st.held, len) else st.held
  }

  /** The masking loop on the `len` cells before `end`. */
  method MaskBefore(a: array<byte>, end: nat, len: nat)
    requires len + 4 <= end <= a.Length
    modifies a
    ensures a[..end] == MaskedTail(old(a[..end]), len)
    ensures forall i :: end <= i < a.Length ==> a[i] == old(a[i])
  {
    hide Xored;
    var p := end - len;
    ghost var was := a[..];
    XorInPlace(a, p, len);
    MaskedPieces(was, a[..], end, len);
    assert was[..end] == old(a[..end]) && a[..][..end] == a[..end];
  }

  /** The masking loop's effect, on the cells as sequences. */
  lemma MaskedPieces(a: seq<byte>, b: seq<byte>, end: nat, len: nat)
    requires len + 4 <= end <= |a| == |b|
    requires var p := end - len; b[..p] == a[..p] && b[end..] == a[end..] && b[p..end] == Xored(a[p..end], a[p - 4..p])
    ensures b[..end] == MaskedTail(a[..end], len)
    ensures forall i :: end <= i < |a| ==> b[i] == a[i]
  {
    hide Xored;
    var p := end - len;
    assert b[..end] == b[..p] + b[p..end];
    assert a[..end][..p] == a[..p] && a[..end][p..] == a[p..end] && a[..end][p - 4..p] == a[p - 4..p];
    assert forall i :: end <= i < |a| ==> b[i] == b[end..][i - end] && a[i] == a[end..][i - end];
  }

  /** Masking the tail of a buffer that ends with header and payload gives the frame. */
  lemma MaskedFrame(s: seq<byte>, payload: seq<byte>, op: byte, isClient: bool, key: seq<byte>, size: nat)
    requires |payload| < TWO64 && |key| == 4 && size > 0
    ensures var st := State(s + Mkhdr(|payload|, op, isClient, key) + payload, size);
            && MaskInside(st, |payload|, isClient)
            && AfterMask(st, |payload|, isClient) == s + FrameBytes(payload, op, isClient, key)
  {
    hide Xored, Mkhdr, MaskedTail;
    var h := Mkhdr(|payload|, op, isClient, key);
    if isClient && payload != [] {
      MaskedAfter(s, h, payload, key);
    } else {
      assert isClient ==> Xored(payload, key) == payload;
      assert s + h + payload == s + (h + payload);
    }
  }

  lemma MaskedAfter(s: seq<byte>, h: seq<byte>, payload: seq<byte>, key: seq<byte>)
    requires |key| == 4 <= |h| && h[|h| - 4..] == key
    ensures MaskedTail(s + h + payload, |payload|) == s + (h + Xored(payload, key))
  {
    hide Xored;
    var t := s + h + payload;
    var at := |t| - |payload|;
    assert t[at..] == payload && t[..at] == s + h;
    assert t[at - 4..at] == h[|h| - 4..];
    assert s + h + Xored(payload, key) == s + (h + Xored(payload, key));
  }

  /** The send buffer after the two sends of a frame, before the masking. */
  function AfterSends(st: State, header: seq<byte>, payload: seq<byte>, m1: bool, m2: bool): State {
    AppendTo(AppendTo(st, header, IO_SIZE, m1), payload, IO_SIZE, m2)
  }

  /** With memory both sends are taken. */
  lemma BothSent(st: State, header: seq<byte>, payload: seq<byte>)
    requires header != []
    ensures var r := AfterSends(st, header, payload, true, true);
            r.held == st.held + header + payload && r.size > 0
  {
    hide GrownSize;
  }

  /** What is framed once the gap for the header has been appended or refused: the payload, or bytes too far forward. */
  lemma Framed(s: seq<byte>, gap: seq<byte>, len: nat, h: nat)
    requires len <= |s| && |gap| == h
    ensures var t, at := s + gap, |s| - len;
            |t| - len - h == at && t[..at] == s[..at] && t[at..at + len] == s[at..]
  {
  }

  class Sender {
    const send: IoBuf
    const isClient: bool

    constructor (send: IoBuf, isClient: bool)
      ensures this.send == send && this.isClient == isClient
    {
      this.send, this.isClient := send, isClient;
    }

    /** `mg_ws_mask`. */
    method Mask(len: nat)
      requires send.Valid() && MaskInside(send.AsState(), len, isClient)
      modifies send.buf
      ensures send.Valid() && send.Contents() == AfterMask(old(send.AsState()), len, isClient)
    {
      hide MaskedTail;
      if isClient && send.buf != null && len > 0 {
        MaskBefore(send.buf, send.len, len);
      }
    }

    /**
     `mg_ws_send`; `m1` and `m2` are whether its two sends find memory if they need any. Whatever was
     refused, the last bytes held are masked, as many as the payload has; they must be there.
     */
    method WsSend(payload: seq<byte>, op: byte, key: seq<byte>, m1: bool, m2: bool) returns (n: nat)
      requires send.Valid() && |payload| < TWO64 && |key| == 4
      requires var st := AfterSends(send.AsState(), Mkhdr(|payload|, op, isClient, key), payload, m1, m2);
               MaskInside(st, |payload|, isClient)
      modifies send, send.buf
      ensures send.Valid() && n == |FrameBytes(payload, op, isClient, key)|
      ensures var st := AfterSends(old(send.AsState()), Mkhdr(|payload|, op, isClient, key), payload, m1, m2);
              send.Contents() == AfterMask(st, |payload|, isClient)
    {
      hide Mkhdr, AfterMask, MaskInside, AppendTo;
      var header := Mkhdr(|payload|, op, isClient, key);
      var k := send.Append(header, IO_SIZE, m1);
      k := send.Append(payload, IO_SIZE, m2);
      Mask(|payload|);
      n := |header| + |payload|;
    }

    /** With memory available nothing else is asked, and the frame is appended. */
    method WsSendWhole(payload: seq<byte>, op: byte, key: seq<byte>) returns (n: nat)
      requires send.Valid() && |payload| < TWO64 && |key| == 4
      modifies send, send.buf
      ensures send.Valid() && n == |FrameBytes(payload, op, isClient, key)|
      ensures send.Contents() == old(send.Contents()) + FrameBytes(payload, op, isClient, key)
    {
      hide Mkhdr, AfterMask, MaskInside, AfterSends, FrameBytes;
      ghost var st, header := send.AsState(), Mkhdr(|payload|, op, isClient, key);
      BothSent(st, header, payload);
      MaskedFrame(st.held, payload, op, isClient, key, AfterSends(st, header, payload, true, true).size);
      n := WsSend(payload, op, key, true, true);
    }

    /** The overlapping move and the copy of the header, on the send buffer. */
    method Prepend(len: nat, header: seq<byte>)
      requires send.Valid() && header != [] && len + |header| <= |send.AsState().held|
      modifies send.buf
      ensures send.Valid() && send.AsState().size > 0
      ensures var st, at := old(send.AsState()), |old(send.AsState()).held| - len - |header|;
              send.AsState() == State(st.held[..at] + header + st.held[at..at + len], st.size)
    {
      assert send.buf != null;
      ShiftAndPrepend(send.buf, send.len, len, header);
    }

    /**
     `mg_ws_wrap`; `memory` is whether the gap for the header finds memory if it needs any. The bytes
     that stand a header's length before the last `len` become a frame. With the gap these are the
     last bytes there were; without it they are too far forward and the last ones are lost.
     */
    method WsWrap(len: nat, op: byte, key: seq<byte>, memory: bool) returns (n: nat)
      requires send.Valid() && len <= |send.Contents()| && len < TWO64 && |key| == 4
      requires var h := |Mkhdr(len, op, isClient, key)|;
               len + h <= |AppendTo(send.AsState(), Zeros(h), IO_SIZE, memory).held|
      modifies send, send.buf
      ensures send.Valid() && n == |send.Contents()|
      ensures var h := |Mkhdr(len, op, isClient, key)|;
              var s := AppendTo(old(send.AsState()), Zeros(h), IO_SIZE, memory).held;
              var at := |s| - len - h;
              send.Contents() == s[..at] + FrameBytes(s[at..at + len], op, isClient, key)
    {
      hide Mkhdr, AfterMask, MaskInside, FrameBytes, Zeros, AppendTo;
      var header := Mkhdr(len, op, isClient, key);
      ghost var s := WrapUnmasked(len, header, memory);
      ghost var at := |s| - len - |header|;
      MaskedFrame(s[..at], s[at..at + len], op, isClient, key, send.AsState().size);
      Mask(len);
      n := HeldNow();
    }

    /** A gap of n bytes, if it needs no memory or finds it. */
    method OpenGap(n: nat, memory: bool)
      requires send.Valid()
      modifies send, send.buf
      ensures send.Valid() && (send.buf == old(send.buf) || fresh(send.buf))
      ensures send.AsState() == AppendTo(old(send.AsState()), Zeros(n), IO_SIZE, memory)
    {
      hide Zeros, AppendTo;
      var k := send.AppendGap(n, IO_SIZE, memory);
    }

    /** The gap, the move and the header; the bytes held once there was a gap are returned. */
    method WrapUnmasked(len: nat, header: seq<byte>, memory: bool) returns (ghost s: seq<byte>)
      requires send.Valid() && header != []
      requires len + |header| <= |AppendTo(send.AsState(), Zeros(|header|), IO_SIZE, memory).held|
      modifies send, send.buf
      ensures send.Valid() && (send.buf == old(send.buf) || fresh(send.buf))
      ensures s == AppendTo(old(send.AsState()), Zeros(|header|), IO_SIZE, memory).held
      ensures var at := |s| - len - |header|;
              && send.AsState().held == s[..at] + header + s[at..at + len]
              && send.AsState().size > 0
    {
      hide *;
      OpenGap(|header|, memory);
      s := send.AsState().held;
      Prepend(len, header);
    }

    method HeldNow() returns (n: nat)
      requires send.Valid()
      ensures n == |send.Contents()|
    {
      n := send.len;
    }

    /** With memory available nothing else is asked: the last `len` bytes become a frame, as if sent as one. */
    method WsWrapWhole(len: nat, op: byte, key: seq<byte>) returns (n: nat)
      requires send.Valid() && len <= |send.Contents()| && len < TWO64 && |key| == 4
      modifies send, send.buf
      ensures send.Valid() && n == |send.Contents()|
      ensures var s, at := old(send.Contents()), |old(send.Contents())| - len;
              send.Contents() == s[..at] + FrameBytes(s[at..], op, isClient, key)
    {
      hide Mkhdr, FrameBytes, Zeros;
      ghost var s, h := send.Contents(), |Mkhdr(len, op, isClient, key)|;
      assert AppendTo(send.AsState(), Zeros(h), IO_SIZE, true).held == s + Zeros(h);
      Framed(s, Zeros(h), len, h);
      n := WsWrap(len, op, key, true);
    }
  }

  /** Before the cell `end`: move the last `len` bytes past the room for the header, then write the header. */
  method ShiftAndPrepend(a: array<byte>, end: nat, len: nat, header: seq<byte>)
    requires len + |header| <= end <= a.Length
    modifies a
    ensures var s, at := old(a[..end]), end - len - |header|;
            a[..end] == s[..at] + header + s[at..at + len]
    ensures forall i :: end <= i < a.Length ==> a[i] == old(a[i])
  {
    var p := end - len;
    var at := p - |header|;
    ghost var s := a[..];
    MoveUp(a, at, p, len);
    ghost var moved := a[..];
    CopyIn(a, at, header);
    Assembled(s, moved, a[..], at, len, header);
    CutAt(s, a[..], end, at, len);
    assert old(a[..end]) == s[..end] && a[..end] == a[..][..end];
  }

  lemma CutAt(s: seq<byte>, t: seq<byte>, end: nat, at: nat, len: nat)
    requires at + len <= end <= |s| == |t|
    ensures s[..end][..at] == s[..at] && s[..end][at..at + len] == s[at..at + len]
  {
  }

  /** The move and then the copy, on the cells as sequences. */
  lemma Assembled(s: seq<byte>, moved: seq<byte>, t: seq<byte>, at: nat, len: nat, header: seq<byte>)
    requires |s| == |moved| == |t| && at + |header| + len <= |s|
    requires var p := at + |header|;
             && moved[p..p + len] == s[at..at + len]
             && (forall i :: 0 <= i < |s| && !(p <= i < p + len) ==> moved[i] == s[i])
             && t[..at] == moved[..at] && t[at..p] == header && (forall i :: p <= i < |s| ==> t[i] == moved[i])
    ensures var end := at + |header| + len;
            && t[..end] == s[..at] + header + s[at..at + len]
            && (forall i :: end <= i < |s| ==> t[i] == s[i])
  {
    var p := at + |header|;
    assert t[p..p + len] == moved[p..p + len];
    assert moved[..at] == s[..at];
    assert t[..p + len] == t[..at] + t[at..p] + t[p..p + len];
  }

  /** The overlapping move of `len` cells from `at` up to `p`. */
  method MoveUp(a: array<byte>, at: nat, p: nat, len: nat)
    requires at <= p && p + len <= a.Length
    modifies a
    ensures a[p..p + len] == old(a[at..at + len])
    ensures forall i :: 0 <= i < a.Length && !(p <= i < p + len) ==> a[i] == old(a[i])
  {
    forall i | 0 <= i < len {
      a[p + i] := a[at + i];
    }
  }

  // ---------- send, then receive ----------

  lemma LengthByteBits(n: nat, mask: byte)
    requires n < 128 && mask in {0, 0x80}
    ensures (Byte(n) | mask) & 0x7f == Byte(n)
    ensures (Byte(n) | mask) & 0x80 != 0 <==> mask == 0x80
  {
    ByteBelow(Byte(n));
    SevenBits(Byte(n));
  }

  lemma Markers()
    ensures Byte(126) == 126 && Byte(127) == 127
  {
    NumInjective(Byte(126), 126);
    NumInjective(Byte(127), 127);
  }

  /** What a header made by the sender declares, whatever follows it. */
  lemma MkhdrDeclares(len: nat, op: byte, isClient: bool, key: seq<byte>, tail: seq<byte>)
    requires len < TWO64 && |key| == 4
    ensures var h := Mkhdr(len, op, isClient, key);
            Declared(h + tail) == WsMsg(op | 0x80, |h|, len) && HasMask(h + tail) == isClient
  {
    hide Byte, U16, U32, Be16, Be32, Num;
    var mask: byte := if isClient then 0x80 else 0;
    var h := Mkhdr(len, op, isClient, key);
    var s := h + tail;
    assert s[0] == h[0] && s[1] == h[1];
    if len < 126 {
      LengthByteBits(len, mask);
    } else if len < 65536 {
      LengthByteBits(126, mask);
      Markers();
      assert s[2] == Be16(len)[0] && s[3] == Be16(len)[1];
    } else {
      LengthByteBits(127, mask);
      Markers();
      assert s[2..6] == Be32(len / TWO32) && s[6..10] == Be32(len % TWO32);
      U32OfBe32(len / TWO32);
      U32OfBe32(len % TWO32);
    }
  }

  /**
   Encoding and decoding a frame: for every opcode, payload, key and following bytes, masked or not,
   the framer finds exactly the frame and its payload, and unmasking it leaves what follows alone.
   */
  lemma FrameRoundTrip(payload: seq<byte>, op: byte, isClient: bool, key: seq<byte>, tail: seq<byte>)
    requires |payload| < TWO64 && |key| == 4
    ensures var f := FrameBytes(payload, op, isClient, key);
            && FrameLen(f + tail) == |f|
            && Declared(f + tail) == WsMsg(op | 0x80, |f| - |payload|, |payload|)
            && Payload(f + tail) == payload
            && Unmasked(f + tail) == f[..|f| - |payload|] + payload + tail
  {
    hide Mkhdr, Declared, Xored;
    var h := Mkhdr(|payload|, op, isClient, key);
    var data := if isClient then Xored(payload, key) else payload;
    var f := h + data;
    MkhdrDeclares(|payload|, op, isClient, key, data + tail);
    assert f + tail == h + (data + tail);
    var s := f + tail;
    assert s[|h|..|f|] == data && s[|f|..] == tail && s[..|h|] == h == f[..|h|];
    if isClient {
      assert s[|h| - 4..|h|] == h[|h| - 4..];
      XoredTwice(payload, key);
    }
  }

  /** No complete header that declares the same length and masking is shorter than the one `mkhdr` makes. */
  lemma ShortestForm(s: seq<byte>, op: byte, key: seq<byte>)
    requires Declared(s).headerLen > 0 && |key| == 4
    ensures Declared(s).dataLen < TWO64
    ensures |Mkhdr(Declared(s).dataLen, op, HasMask(s), key)| <= Declared(s).headerLen
  {
    hide Byte, U16, U32, Be16, Be32, Num;
  }

  // ---------- a conversation ----------

  datatype Frame = Frame(payload: seq<byte>, op: byte, isClient: bool, key: seq<byte>)

  /** A frame that can be sent. */
  type Sent = x: Frame | |x.payload| + 14 < TWO64 && |x.key| == 4 && x.op < 16
    witness Frame([], OP_TEXT, false, [0, 0, 0, 0])

  function SentBytes(xs: seq<Sent>): seq<byte>
  {
    if xs == [] then []
    else FrameBytes(xs[0].payload, xs[0].op, xs[0].isClient, xs[0].key) + SentBytes(xs[1..])
  }

  /** What the peer is told about the frames. */
  function SentEvents(xs: seq<Sent>): seq<Event> {
    if xs == [] then [] else EventsOf(xs[0].op | 0x80, xs[0].payload) + SentEvents(xs[1..])
  }

  predicate AnyCloses(xs: seq<Sent>) { exists k :: 0 <= k < |xs| && Closes(xs[k].op) }

  lemma FinBit(op: byte)
    requires op < 16
    ensures Closes(op | 0x80) == Closes(op) && Op(op | 0x80) == op
  {
    assert (op | 0x80) & 0x0f == op && op & 0x0f == op;
  }

  lemma {:induction false} DrainSent(xs: seq<Sent>)
    ensures Drain(SentBytes(xs)) == Outcome(SentEvents(xs), [], AnyCloses(xs))
    ensures StreamFits(SentBytes(xs))
  {
    hide FrameBytes, Declared, EventsOf, Closes, Payload, Unmasked, Mkhdr, FrameLen, Drain, AnyCloses;
    if xs == [] {
      NothingDeclared();
      DrainStops([]);
      NoneCloses();
    } else {
      var x, rest := xs[0], SentBytes(xs[1..]);
      DrainSent(xs[1..]);
      FrameRoundTrip(x.payload, x.op, x.isClient, x.key, rest);
      FinBit(x.op);
      var f := FrameBytes(x.payload, x.op, x.isClient, x.key);
      HeaderShort(x);
      DrainOne(f + rest);
      assert (f + rest)[|f|..] == rest;
      ClosesFirst(xs);
    }
  }

  lemma ClosesFirst(xs: seq<Sent>)
    requires xs != []
    ensures AnyCloses(xs) == (Closes(xs[0].op) || AnyCloses(xs[1..]))
  {
    hide Closes;
    assert forall k :: 1 <= k < |xs| ==> xs[k] == xs[1..][k - 1];
  }

  lemma NoneCloses()
    ensures !AnyCloses([])
  {
  }

  lemma HeaderShort(x: Sent)
    ensures 2 <= |FrameBytes(x.payload, x.op, x.isClient, x.key)| <= |x.payload| + 14
  {
  }

  /** Whatever frames are sent, and however their bytes are cut into reads, the handler delivers exactly those. */
  lemma SentIsDelivered(xs: seq<Sent>, chunks: seq<seq<byte>>)
    requires Flatten(chunks) == SentBytes(xs)
    ensures Feed(Drain, chunks) == Outcome(SentEvents(xs), [], AnyCloses(xs))
  {
    Fragmentation(chunks);
    DrainSent(xs);
  }

  // ---------- a conversation under the poll loop ----------

  /** A proper prefix of a frame is no frame. */
  lemma PartOfFrame(f: seq<byte>, k: nat)
    requires k < |f| == FrameLen(f)
    ensures FrameLen(f[..k]) == 0
  {
    hide Declared, Payload;
    assert f[..k] + f[k..] == f;
    if FrameLen(f[..k]) > 0 {
      FrameStable(f[..k], f[k..]);
    }
  }

  lemma SentOne(x: Sent, rest: seq<byte>)
    ensures var f := FrameBytes(x.payload, x.op, x.isClient, x.key);
            && FrameLen(f + rest) == |f| == FrameLen(f) && |f| > 0
            && Drain(f + rest) == Then(Outcome(EventsOf(x.op | 0x80, x.payload), [], Closes(x.op)), Drain(rest))
  {
    hide FrameBytes, Declared, EventsOf, Closes, Payload, Unmasked, FrameLen, Drain;
    var f := FrameBytes(x.payload, x.op, x.isClient, x.key);
    FrameRoundTrip(x.payload, x.op, x.isClient, x.key, rest);
    FrameRoundTrip(x.payload, x.op, x.isClient, x.key, []);
    FinBit(x.op);
    HeaderShort(x);
    DrainOne(f + rest);
    assert f + [] == f && (f + rest)[|f|..] == rest;
  }

  /** If only the last frame closes, no proper prefix of the bytes closes. */
  lemma {:induction false} ClosesAtEnd(xs: seq<Sent>, k: nat)
    requires xs != [] && !AnyCloses(xs[..|xs| - 1]) && k < |SentBytes(xs)|
    ensures !Drain(SentBytes(xs)[..k]).closing
    decreases |xs|
  {
    hide FrameBytes, Declared, EventsOf, Closes, Payload, FrameLen, Drain, AnyCloses;
    var x, s, rest := xs[0], SentBytes(xs), SentBytes(xs[1..]);
    var f := FrameBytes(x.payload, x.op, x.isClient, x.key);
    SentOne(x, rest);
    if k < |f| {
      assert s[..k] == f[..k];
      PartOfFrame(f, k);
      DrainStops(s[..k]);
    } else {
      assert s[..k] == f + rest[..k - |f|];
      SentOne(x, rest[..k - |f|]);
      if |xs| == 1 {
        assert false;
      } else {
        var init := xs[..|xs| - 1];
        ClosesFirst(init);
        assert init[1..] == xs[1..][..|xs| - 2];
        ClosesAtEnd(xs[1..], k - |f|);
      }
    }
  }

  /** The bytes and events of two runs of frames. */
  lemma {:induction false} SentConcat(xs: seq<Sent>, ys: seq<Sent>)
    ensures SentBytes(xs + ys) == SentBytes(xs) + SentBytes(ys)
    ensures SentEvents(xs + ys) == SentEvents(xs) + SentEvents(ys)
  {
    hide SentBytes, SentEvents, FrameBytes, EventsOf;
    if xs == [] {
      SentNothing();
      assert xs + ys == ys;
    } else {
      var x, rest := xs[0], xs[1..];
      SentConcat(rest, ys);
      assert xs == [x] + rest && xs + ys == [x] + (rest + ys);
      SentFirst(x, rest);
      SentFirst(x, rest + ys);
    }
  }

  lemma SentNothing()
    ensures SentBytes([]) == [] && SentEvents([]) == []
  {
  }

  lemma SentFirst(x: Sent, rest: seq<Sent>)
    ensures SentBytes([x] + rest) == FrameBytes(x.payload, x.op, x.isClient, x.key) + SentBytes(rest)
    ensures SentEvents([x] + rest) == EventsOf(x.op | 0x80, x.payload) + SentEvents(rest)
  {
    hide FrameBytes, EventsOf;
    assert ([x] + rest)[1..] == rest;
  }

  lemma SentFires(xs: seq<Sent>)
    requires xs != []
    ensures |SentEvents(xs)| > 0
  {
  }

  /** Two reads, the first of which ends with a closing frame: the second is not served. */
  lemma CloseHides(xs: seq<Sent>, i: nat)
    requires i + 1 < |xs| && Closes(xs[i].op)
    ensures var chunks := [SentBytes(xs[..i + 1]), SentBytes(xs[i + 1..])];
            Flatten(chunks) == SentBytes(xs) && Served(Drain, chunks).events != SentEvents(xs)
  {
    hide FrameBytes, EventsOf, Closes, Drain, SentBytes, SentEvents, Flatten, Served;
    var a, b := xs[..i + 1], xs[i + 1..];
    assert a + b == xs;
    SentConcat(a, b);
    SentFires(b);
    DrainSent(a);
    assert AnyCloses(a) by {
      assert a[i] == xs[i];
    }
    ServeTwo(SentBytes(a), SentBytes(b));
    assert |SentEvents(xs)| == |SentEvents(a)| + |SentEvents(b)|;
  }

  lemma ServeTwo(a: seq<byte>, b: seq<byte>)
    requires Drain(a).closing
    ensures Flatten([a, b]) == a + b && Served(Drain, [a, b]).events == Drain(a).events
  {
    hide Drain;
    assert [a, b][..1] == [a] && [a][..0] == [];
    assert Flatten([a]) == a;
    assert [] + a == a;
    assert Served(Drain, [a]) == Then(Outcome([], [], false), Drain(a));
  }

  /** If only the last frame closes, the poll loop serves all of them, however they are cut. */
  lemma ServedAll(xs: seq<Sent>, chunks: seq<seq<byte>>)
    requires xs != [] && !AnyCloses(xs[..|xs| - 1]) && Flatten(chunks) == SentBytes(xs)
    ensures Served(Drain, chunks).events == SentEvents(xs)
  {
    hide Drain, SentBytes, SentEvents, AnyCloses, Served, ReadBytes, Unread, Flatten;
    DrainSplits();
    DrainSent(xs);
    ReadIsPrefix(Drain, chunks);
    var read, s := ReadBytes(Drain, chunks), SentBytes(xs);
    assert s[..|read|] == read;
    if |read| < |s| {
      ClosesAtEnd(xs, |read|);
    } else {
      assert s[..|s|] == s;
    }
  }

  /**
   Under the poll loop, which stops reading a connection that is to close: for every cut exactly the
   frames sent are delivered if and only if no frame but the last closes the connection.
   */
  lemma SentIsServed(xs: seq<Sent>)
    ensures (forall chunks: seq<seq<byte>> ::
               Flatten(chunks) == SentBytes(xs) ==> Served(Drain, chunks).events == SentEvents(xs)) <==>
            xs == [] || !AnyCloses(xs[..|xs| - 1])
  {
    hide Drain, SentBytes, SentEvents, Closes;
    if xs == [] {
      forall chunks: seq<seq<byte>> | Flatten(chunks) == SentBytes(xs)
        ensures Served(Drain, chunks).events == SentEvents(xs)
      {
        DrainSplits();
        DrainSent(xs);
        ServedWhole(Drain, chunks);
      }
    } else if AnyCloses(xs[..|xs| - 1]) {
      var i :| 0 <= i < |xs| - 1 && Closes(xs[..|xs| - 1][i].op);
      CloseHides(xs, i);
    } else {
      forall chunks: seq<seq<byte>> | Flatten(chunks) == SentBytes(xs)
        ensures Served(Drain, chunks).events == SentEvents(xs)
      {
        ServedAll(xs, chunks);
      }
    }
  }

  // ---------- headers and opcodes, with literal numbers ----------

  /** The three header forms; a masked short header is not looked at before four bytes are there. */
  lemma HeaderForms(s: seq<byte>)
    requires |s| >= 2
    ensures HasMask(s) <==> s[1] >= 128
    ensures var n, k := if s[1] >= 128 then s[1] as nat - 128 else s[1] as nat, if s[1] >= 128 then 4 else 0;
            Declared(s) ==
            if n < 126 && |s| >= k then WsMsg(s[0], 2 + k, n)
            else if n == 126 && |s| >= 4 + k then WsMsg(s[0], 4 + k, 256 * (s[2] as nat) + s[3] as nat)
            else if |s| >= 10 + k then WsMsg(s[0], 10 + k, LongLength(s[2..10]))
            else WsMsg(s[0], 0, 0)
  {
    hide U16, U32, Declared, ShortLen, MaskLen, HasMask, LongLength;
    DeclaredAs(s);
    SecondByte(s);
    if |s| >= 4 {
      NetworkOrder(s[2], s[3], 0, 0);
    }
    if |s| >= 10 {
      assert s[2..10][..4] == s[2..6] && s[2..10][4..] == s[6..10];
      LongIs(s[2..10]);
    }
  }

  lemma LongIs(b: seq<byte>)
    requires |b| == 8
    ensures TWO32 * U32(b[..4]) + U32(b[4..]) == LongLength(b)
  {
    hide U32;
    NetworkOrder(b[0], b[1], b[2], b[3]);
    NetworkOrder(b[4], b[5], b[6], b[7]);
    assert b[..4] == [b[0], b[1], b[2], b[3]] && b[4..] == [b[4], b[5], b[6], b[7]];
  }

  /** Eight bytes in network order. */
  function LongLength(b: seq<byte>): nat
    requires |b| == 8
  {
    (16777216 * (b[0] as nat) + 65536 * (b[1] as nat) + 256 * (b[2] as nat) + b[3] as nat) * 0x1_0000_0000
    + 16777216 * (b[4] as nat) + 65536 * (b[5] as nat) + 256 * (b[6] as nat) + b[7] as nat
  }

  lemma SecondByte(s: seq<byte>)
    requires |s| >= 2
    ensures HasMask(s) <==> s[1] >= 128
    ensures MaskLen(s) == if s[1] >= 128 then 4 else 0
    ensures ShortLen(s) == if s[1] >= 128 then s[1] as nat - 128 else s[1] as nat
  {
    SevenLow(s[1]);
  }

  /** What each opcode fires and which ones close, for any first frame. */
  lemma OpcodeFires(s: seq<byte>)
    requires FrameLen(s) > 0
    ensures var flags, data, rest := s[0], Payload(s), Drain(s[FrameLen(s)..]);
            var op := flags & 0x0f;
            && (op == 0 || op == 10 ==> Drain(s) == Then(Outcome([Ctl(flags, data)], [], false), rest))
            && (op == 1 || op == 2 ==> Drain(s) == Then(Outcome([Msg(flags, data)], [], false), rest))
            && (op == 8 ==> Drain(s) == Then(Outcome([Ctl(flags, data)], [], true), rest))
            && (op == 9 ==> Drain(s) == Then(Outcome([Pong(data), Ctl(flags, data)], [], false), rest))
            && (3 <= op <= 7 || op > 10 ==> Drain(s) == Then(Outcome([Error(op)], [], true), rest))
  {
    hide Drain, Payload, U16, U32, Num;
    DrainOne(s);
    assert Declared(s).flags == s[0] by {
      DeclaredAs(s);
    }
  }

  /** The same for the frames that are sent, whatever side, key and payload. */
  lemma FramesFire(payload: seq<byte>, op: byte, isClient: bool, key: seq<byte>, rest: seq<byte>)
    requires |payload| < TWO64 && |key| == 4 && op < 16
    ensures var s := FrameBytes(payload, op, isClient, key) + rest;
            && (op == 0 || op == 10 ==> Drain(s) == Then(Outcome([Ctl(0x80 | op, payload)], [], false), Drain(rest)))
            && (op == 1 || op == 2 ==> Drain(s) == Then(Outcome([Msg(0x80 | op, payload)], [], false), Drain(rest)))
            && (op == 8 ==> Drain(s) == Then(Outcome([Ctl(0x88, payload)], [], true), Drain(rest)))
            && (op == 9 ==> Drain(s) == Then(Outcome([Pong(payload), Ctl(0x89, payload)], [], false), Drain(rest)))
            && (3 <= op <= 7 || op > 10 ==> Drain(s) == Then(Outcome([Error(op)], [], true), Drain(rest)))
  {
    hide Drain, Payload, FrameBytes, FrameLen, Declared, Unmasked;
    var f := FrameBytes(payload, op, isClient, key);
    FrameRoundTrip(payload, op, isClient, key, rest);
    FrameNotEmpty(payload, op, isClient, key);
    assert (f + rest)[|f|..] == rest;
    OpcodeFires(f + rest);
    FlagsFirst(f + rest);
    OpcodeBits(op);
  }

  lemma FrameNotEmpty(payload: seq<byte>, op: byte, isClient: bool, key: seq<byte>)
    requires |payload| < TWO64 && |key| == 4
    ensures |FrameBytes(payload, op, isClient, key)| > 0
  {
    hide Mkhdr;
  }

  lemma FlagsFirst(s: seq<byte>)
    requires FrameLen(s) > 0
    ensures Declared(s).flags == s[0]
  {
    hide U16, U32, Num;
    DeclaredAs(s);
  }

  lemma OpcodeBits(op: byte)
    requires op < 16
    ensures (op | 0x80) & 0x0f == op && op | 0x80 == 0x80 | op
    ensures op == 8 ==> op | 0x80 == 0x88
    ensures op == 9 ==> op | 0x80 == 0x89
  {
  }
}
