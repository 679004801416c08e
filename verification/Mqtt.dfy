/** The MQTT 3.1.1 framer, its receive handler and the PUBLISH encoder. */
module Mqtt {
  import opened Bytes
  import opened IoBuf
  import opened Stream

  const CMD_CONNACK: byte := 2
  const CMD_PUBLISH: byte := 3
  const CMD_PUBACK: byte := 4
  const CMD_PUBREC: byte := 5
  const CMD_PUBREL: byte := 6
  const CMD_PUBCOMP: byte := 7
  const CMD_SUBSCRIBE: byte := 8
  const CMD_SUBACK: byte := 9


  /** A pointer into the receive buffer with a length. */
  datatype Span = Span(off: nat, len: nat)

  datatype Message = Message(cmd: byte, qos: byte, ack: byte, id: nat, topic: Span, data: Span, dgramLen: nat)

  datatype Verdict = Incomplete | Malformed | Ok(msg: Message)

  // ---------- parsing ----------

  datatype Length = More | TooLong | Length(n: nat, used: nat)

  function Pow128(k: nat): nat
    requires k < 4
  {
    if k == 0 then 1 else if k == 1 then 128 else if k == 2 then 16384 else 2097152
  }

  /** The k-th length byte's contribution. */
  function Scaled(b: byte, k: nat): nat
    requires k < 4
  {
    Num(b & 0x7f) * Pow128(k)
  }

  predicate Continues(b: byte) { b & 0x80 != 0 }

  /** The remaining length of section 2.2.3 of MQTT 3.1.1; k length bytes have been read, summing to n. */
  function RemainingLength(s: seq<byte>, k: nat, n: nat): (r: Length)
    requires k < 4
    ensures r.Length? ==> k < r.used <= k + |s| && r.used <= 4
  {
    if s == [] then More
    else
      var n' := n + Scaled(s[0], k);
      if !Continues(s[0]) then Length(n', k + 1)
      else if k + 1 >= 4 then TooLong
      else RemainingLength(s[1..], k + 1, n')
  }

  /** The verdict on a whole packet whose variable header starts at p. */
  function ParseBody(pkt: seq<byte>, p: nat): Verdict
    requires 2 <= p <= |pkt|
  {
    var m := Message(pkt[0] >> 4, (pkt[0] >> 1) & 3, 0, 0, Span(0, 0), Span(0, 0), |pkt|);
    if m.cmd == CMD_CONNACK then
      if |pkt| - p < 2 then Malformed else Ok(m.(ack := pkt[p + 1]))
    else if m.cmd in {CMD_PUBACK, CMD_PUBREC, CMD_PUBREL, CMD_PUBCOMP, CMD_SUBACK, CMD_SUBSCRIBE} then
      if p + 2 > |pkt| then Malformed else Ok(m.(id := U16(pkt[p], pkt[p + 1])))
    else if m.cmd == CMD_PUBLISH then
      if p + 2 > |pkt| then Malformed
      else
        var topic := Span(p + 2, U16(pkt[p], pkt[p + 1]));
        var q := p + 2 + topic.len;
        if q > |pkt| then Malformed
        else if m.qos == 0 then Ok(m.(topic := topic, data := Span(q, |pkt| - q)))
        else if q + 2 > |pkt| then Malformed
        else Ok(m.(topic := topic, id := U16(pkt[q], pkt[q + 1]), data := Span(q + 2, |pkt| - q - 2)))
    else Ok(m)
  }

  function Parse(s: seq<byte>): Verdict {
    if |s| < 2 then Incomplete
    else
      match RemainingLength(s[1..], 0, 0)
      case More => Incomplete
      case TooLong => Malformed
      case Length(n, used) =>
        if 1 + used + n > |s| then Incomplete else ParseBody(s[..1 + used + n], 1 + used)
  }

  lemma LengthAt(s: seq<byte>, p: nat, k: nat, n: nat)
    requires p < |s| && k < 4
    ensures RemainingLength(s[p..], k, n) ==
            var n' := n + Scaled(s[p], k);
            if !Continues(s[p]) then Length(n', k + 1)
            else if k + 1 >= 4 then TooLong
            else RemainingLength(s[p + 1..], k + 1, n')
  {
    assert s[p..][1..] == s[p + 1..];
  }

  lemma ParseAs(s: seq<byte>)
    requires |s| >= 2
    ensures match RemainingLength(s[1..], 0, 0)
            case More => Parse(s) == Incomplete
            case TooLong => Parse(s) == Malformed
            case Length(n, used) =>
              if 1 + used + n > |s| then Parse(s) == Incomplete
              else Parse(s) == ParseBody(s[..1 + used + n], 1 + used)
  {
    hide ParseBody, RemainingLength;
  }

  /** The loop over the length bytes; p is where the variable header starts. */
  method ReadLength(buf: array<byte>, len: nat) returns (verdict: Length, p: nat)
    requires 2 <= len <= buf.Length
    ensures verdict == RemainingLength(buf[1..len], 0, 0)
    ensures verdict.Length? ==> p == 1 + verdict.used
  {
    hide RemainingLength, Scaled;
    ghost var s := buf[..len];
    assert s[1..] == buf[1..len];
    var n: nat, lenLen: nat := 0, 0;
    p := 1;
    while p < len
      invariant p == 1 + lenLen <= len && lenLen < 4
      invariant RemainingLength(s[1..], 0, 0) == RemainingLength(s[p..], lenLen, n)
    {
      LengthAt(s, p, lenLen, n);
      var lc := buf[p];
      p := p + 1;
      n := n + Scaled(lc, lenLen);
      lenLen := lenLen + 1;
      if !Continues(lc) {
        return Length(n, lenLen), p;
      }
      if lenLen >= 4 {
        return TooLong, p;
      }
    }
    assert s[p..] == [];
    LengthOfNothing(lenLen, n);
    return More, p;
  }

  /** `mg_mqtt_parse` on the first `len` bytes of the buffer. */
  method ParseBuffer(buf: array?<byte>, len: nat) returns (v: Verdict)
    requires if buf == null then len == 0 else len <= buf.Length
    ensures v == Parse(if buf == null then [] else buf[..len])
  {
    if len < 2 {
      return Incomplete;
    }
    v := ParsePresent(buf, len);
  }

  /** The rest of the parse, once there are two bytes. */
  method ParsePresent(buf: array<byte>, len: nat) returns (v: Verdict)
    requires 2 <= len <= buf.Length
    ensures v == Parse(buf[..len])
  {
    hide *;
    ghost var s := buf[..len];
    ParseAs(s);
    assert s[1..] == buf[1..len];
    var verdict, p := ReadLength(buf, len);
    match verdict
    case TooLong => return Malformed;
    case More => return Incomplete;
    case Length(n, _) =>
      if p + n > len {
        return Incomplete;
      }
      assert buf[..p + n] == s[..p + n];
      v := BodyOf(buf, p, p + n);
  }

  lemma LengthOfNothing(k: nat, n: nat)
    ensures k < 4 ==> RemainingLength([], k, n) == More
  {
  }

  /** The command switch of `mg_mqtt_parse`. */
  method BodyOf(buf: array<byte>, p0: nat, end: nat) returns (v: Verdict)
    requires 2 <= p0 <= end <= buf.Length
    ensures v == ParseBody(buf[..end], p0)
  {
    hide U16;
    var p := p0;
    var m := Message(buf[0] >> 4, (buf[0] >> 1) & 3, 0, 0, Span(0, 0), Span(0, 0), end);
    if m.cmd == CMD_CONNACK {
      if end - p < 2 {
        return Malformed;
      }
      m := m.(ack := buf[p + 1]);
    } else if m.cmd in {CMD_PUBACK, CMD_PUBREC, CMD_PUBREL, CMD_PUBCOMP, CMD_SUBACK} {
      if p + 2 > end {
        return Malformed;
      }
      m := m.(id := U16(buf[p], buf[p + 1]));
    } else if m.cmd == CMD_SUBSCRIBE {
      if p + 2 > end {
        return Malformed;
      }
      m := m.(id := U16(buf[p], buf[p + 1]));
      p := p + 2;
    } else if m.cmd == CMD_PUBLISH {
      if p + 2 > end {
        return Malformed;
      }
      m := m.(topic := Span(p + 2, U16(buf[p], buf[p + 1])));
      p := p + 2 + m.topic.len;
      if p > end {
        return Malformed;
      }
      if m.qos > 0 {
        if p + 2 > end {
          return Malformed;
        }
        m := m.(id := U16(buf[p], buf[p + 1]));
        p := p + 2;
      }
      m := m.(data := Span(p, end - p));
    }
    return Ok(m);
  }

  // ---------- verdicts are stable ----------

  lemma {:induction false} LengthStable(s: seq<byte>, t: seq<byte>, k: nat, n: nat)
    requires k < 4
    ensures !RemainingLength(s, k, n).More? ==> RemainingLength(s + t, k, n) == RemainingLength(s, k, n)
  {
    if s != [] && Continues(s[0]) && k + 1 < 4 {
      var n' := n + Scaled(s[0], k);
      LengthStable(s[1..], t, k + 1, n');
      assert (s + t)[1..] == s[1..] + t;
    }
  }

  lemma ParseWhole(s: seq<byte>, n: nat, used: nat)
    requires |s| >= 2 && RemainingLength(s[1..], 0, 0) == Length(n, used) && 1 + used + n <= |s|
    ensures Parse(s) == ParseBody(s[..1 + used + n], 1 + used)
  {
    hide ParseBody, RemainingLength;
  }

  lemma BodyExtent(pkt: seq<byte>, p: nat)
    requires 2 <= p <= |pkt|
    ensures !ParseBody(pkt, p).Incomplete?
    ensures ParseBody(pkt, p).Ok? ==>
              var m := ParseBody(pkt, p).msg;
              m.topic.off + m.topic.len <= |pkt| && m.data.off + m.data.len <= |pkt| && m.dgramLen == |pkt|
  {
  }

  /** A verdict other than "incomplete" is not changed by more bytes; an accepted packet lies within the buffer. */
  lemma ParseStable(s: seq<byte>, t: seq<byte>)
    ensures !Parse(s).Incomplete? ==> Parse(s + t) == Parse(s)
    ensures Parse(s).Ok? ==> 2 <= Parse(s).msg.dgramLen <= |s|
  {
    hide ParseBody, RemainingLength;
    if |s| >= 2 {
      LengthStable(s[1..], t, 0, 0);
      assert (s + t)[1..] == s[1..] + t && (s + t)[0] == s[0];
      match RemainingLength(s[1..], 0, 0)
      case Length(n, used) =>
        if 1 + used + n <= |s| {
          assert (s + t)[..1 + used + n] == s[..1 + used + n];
          BodyExtent(s[..1 + used + n], 1 + used);
        }
      case _ =>
    }
  }

  lemma ParseOkFits(s: seq<byte>)
    ensures Parse(s).Ok? ==> 2 <= Parse(s).msg.dgramLen <= |s|
  {
    ParseStable(s, []);
  }

  /** Every proper prefix of an accepted packet is incomplete. */
  lemma ProperPrefixIncomplete(s: seq<byte>, k: nat)
    requires Parse(s).Ok? && k < Parse(s).msg.dgramLen
    ensures k < |s| && Parse(s[..k]) == Incomplete
  {
    ParseOkFits(s);
    ParseStable(s[..k], s[k..]);
    assert s[..k] + s[k..] == s;
  }

  // ---------- the receive handler ----------

  /** A message with the bytes its spans stand for at the time of the call. */
  datatype Delivered =
    Delivered(cmd: byte, qos: byte, ack: byte, id: nat, topic: seq<byte>, data: seq<byte>, dgram: seq<byte>)

  datatype Event = Open(ack: byte) | Msg(m: Delivered) | Cmd(m: Delivered) | ReadFailed(full: bool)

  function Deliver(s: seq<byte>, m: Message): Delivered
    requires m.topic.off + m.topic.len <= |s| && m.data.off + m.data.len <= |s| && m.dgramLen <= |s|
  {
    Delivered(m.cmd, m.qos, m.ack, m.id, s[m.topic.off..m.topic.off + m.topic.len],
              s[m.data.off..m.data.off + m.data.len], s[..m.dgramLen])
  }

  /** The callbacks fired for one packet. */
  function EventsOf(d: Delivered): seq<Event> {
    (if d.cmd == CMD_CONNACK then [Open(d.ack)] else if d.cmd == CMD_PUBLISH then [Msg(d)] else []) + [Cmd(d)]
  }

  predicate Refuses(d: Delivered) { d.cmd == CMD_CONNACK && d.ack != 0 }

  lemma SpansFit(s: seq<byte>)
    requires Parse(s).Ok?
    ensures var m := Parse(s).msg;
            m.topic.off + m.topic.len <= |s| && m.data.off + m.data.len <= |s| && 2 <= m.dgramLen <= |s|
  {
    hide ParseBody, RemainingLength;
    match RemainingLength(s[1..], 0, 0)
    case Length(n, used) => BodyExtent(s[..1 + used + n], 1 + used);
    case _ =>
  }

  /** What handling a byte stream amounts to: the events, the bytes left over, and whether to close. */
  function Drain(s: seq<byte>): Outcome<Event>
    decreases |s|
  {
    match Parse(s)
    case Incomplete => Outcome([], s, false)
    case Malformed => Outcome([], s, true)
    case Ok(m) =>
      SpansFit(s);
      var d := Deliver(s, m);
      var o := Drain(s[m.dgramLen..]);
      Outcome(EventsOf(d) + o.events, o.rest, Refuses(d) || o.closing)
  }

  /** Handling a prefix first and then what it left over with the rest appended changes nothing. */
  lemma {:induction false} DrainSplit(s: seq<byte>, t: seq<byte>)
    ensures Drain(s + t) == Then(Drain(s), Drain(Drain(s).rest + t))
    decreases |s|
  {
    hide Parse, EventsOf, Refuses, Drain, Deliver;
    ParseStable(s, t);
    if Parse(s).Ok? {
      SpansFit(s);
      var m := Parse(s).msg;
      var rest := s[m.dgramLen..];
      DrainSplit(rest, t);
      assert (s + t)[m.dgramLen..] == rest + t;
      DeliverPrefix(s, t, m);
      DrainOne(s);
      DrainOne(s + t);
      var d := Deliver(s, m);
      ThenAssoc(Outcome(EventsOf(d), [], Refuses(d)), Drain(rest), Drain(Drain(rest).rest + t));
    } else {
      DrainStops(s);
      if Parse(s).Malformed? {
        DrainStops(s + t);
      }
      assert [] + Drain(s + t).events == Drain(s + t).events;
    }
  }

  lemma DrainOne(s: seq<byte>)
    requires Parse(s).Ok?
    ensures (SpansFit(s);
             var m := Parse(s).msg;
             var d := Deliver(s, m);
             Drain(s) == Then(Outcome(EventsOf(d), [], Refuses(d)), Drain(s[m.dgramLen..])))
  {
  }

  lemma DrainStops(s: seq<byte>)
    requires !Parse(s).Ok?
    ensures Drain(s) == Outcome([], s, Parse(s).Malformed?)
  {
  }

  lemma DeliverPrefix(s: seq<byte>, t: seq<byte>, m: Message)
    requires m.topic.off + m.topic.len <= |s| && m.data.off + m.data.len <= |s| && m.dgramLen <= |s|
    ensures Deliver(s + t, m) == Deliver(s, m)
  {
    assert (s + t)[..m.dgramLen] == s[..m.dgramLen];
    assert forall a, b :: 0 <= a <= b <= |s| ==> (s + t)[a..b] == s[a..b];
  }

  lemma DrainSplits()
    ensures Splits(Drain)
  {
    hide Drain;
    DrainNothing();
    forall s: seq<byte>, t: seq<byte> ensures Drain(s + t) == Then(Drain(s), Drain(Drain(s).rest + t)) {
      DrainSplit(s, t);
    }
  }

  /** However a byte stream is cut, the events, the leftover and the verdict are those of the uncut stream. */
  lemma Fragmentation(chunks: seq<seq<byte>>)
    ensures Feed(Drain, chunks) == Drain(Flatten(chunks))
  {
    DrainSplits();
    FeedsWhole(Drain, chunks);
  }

  lemma DrainNothing()
    ensures Drain([]) == Outcome([], [], false)
  {
  }

  /** One round of the handler's loop. */
  lemma OnePacket(log: seq<Event>, closing: bool, s: seq<byte>)
    requires Parse(s).Ok?
    ensures (SpansFit(s);
             var m := Parse(s).msg;
             var d := Deliver(s, m);
             Then(Outcome(log, [], closing), Drain(s)) ==
             Then(Outcome(log + EventsOf(d), [], closing || Refuses(d)), Drain(s[m.dgramLen..])))
  {
    hide Parse, EventsOf, Refuses, Drain, Deliver;
    DrainOne(s);
    SpansFit(s);
    var m := Parse(s).msg;
    var d := Deliver(s, m);
    ThenAssoc(Outcome(log, [], closing), Outcome(EventsOf(d), [], Refuses(d)), Drain(s[m.dgramLen..]));
  }

  /** The state after the bytes of `stream`; a read that has failed came after all of them. */
  predicate Handled(stream: seq<byte>, log: seq<Event>, rest: seq<byte>, isClosing: bool, failure: Failure) {
    var o := Drain(stream);
    && log == o.events + (if failure.Broken? then [ReadFailed(failure.full)] else [])
    && rest == o.rest && isClosing == (o.closing || failure != Fine)
  }

  /** The receiving side of a connection. The callbacks are recorded in `log`. */
  class Receiver {
    const recv: IoBuf
    var log: seq<Event>
    var isClosing: bool
    ghost var failure: Failure    // whether a read has failed
    ghost var stream: seq<byte>   // every byte read so far

    /** The whole state is a function of the bytes read, not of how they arrived. */
    ghost predicate Valid()
      reads this, recv, recv.buf
    {
      recv.Valid() && Handled(stream, log, recv.Contents(), isClosing, failure)
    }

    constructor ()
      ensures Valid() && stream == [] && !isClosing
    {
      recv := new IoBuf();
      log, isClosing, failure, stream := [], false, Fine, [];
      new;
      assert Drain([]) == Outcome([], [], false);
      assert recv.Contents() == recv.AsState().held == [];
    }

    /** `mqtt_cb` on a read event. */
    method MqttCb()
      requires recv.Valid()
      modifies this`log, this`isClosing, recv, recv.buf
      ensures recv.Valid() && recv.buf == old(recv.buf)
      ensures Outcome(log, recv.Contents(), isClosing) ==
              Then(Outcome(old(log), [], old(isClosing)), Drain(old(recv.Contents())))
    {
      hide Parse, Drain, EventsOf, Refuses, Deliver;
      ghost var s0 := recv.Contents();
      while true
        invariant recv.Valid() && recv.buf == old(recv.buf)
        invariant Then(Outcome(old(log), [], old(isClosing)), Drain(s0)) ==
                  Then(Outcome(log, [], isClosing), Drain(recv.Contents()))
        decreases recv.len
      {
        var s: seq<byte> := if recv.buf == null then [] else recv.buf[..recv.len];
        var v := ParseBuffer(recv.buf, recv.len);
        if v.Malformed? {
          DrainStops(s);
          isClosing := true;
          break;
        } else if v.Ok? {
          var m := v.msg;
          SpansFit(s);
          var d := Deliver(s, m);
          OnePacket(log, isClosing, s);
          Fire(d);
          var n := recv.Delete(m.dgramLen);
        } else {
          DrainStops(s);
          break;
        }
      }
    }

    /** The callbacks for one packet. */
    method Fire(d: Delivered)
      modifies this`log, this`isClosing
      ensures log == old(log) + EventsOf(d) && isClosing == (old(isClosing) || Refuses(d))
    {
      if d.cmd == CMD_CONNACK {
        log := log + [Open(d.ack)];
        if d.ack != 0 {
          isClosing := true;
        }
      } else if d.cmd == CMD_PUBLISH {
        log := log + [Msg(d)];
      }
      log := log + [Cmd(d)];
    }

    /** The read event for bytes that have just been taken into the buffer. */
    method Arrived(data: seq<byte>)
      requires recv.Valid() && failure == Fine
      requires var o := Drain(stream);
               log == o.events && recv.Contents() == o.rest + data && !isClosing && !o.closing
      modifies this`log, this`isClosing, this`stream, recv, recv.buf
      ensures Valid() && stream == old(stream) + data
    {
      hide Drain;
      DrainSplit(stream, data);
      MqttCb();
      stream := stream + data;
    }

    /**
     `read_conn`, which the poll loop calls unless the connection is to close: take pending bytes and
     fire the read event. A buffer that is full or cannot grow (`broken`), a closed socket or a socket
     error (`hangup`) marks the connection for closing.
     */
    method ReadConn(pending: seq<byte>, memory: bool, hangup: bool) returns (n: nat, broken: bool)
      requires Valid() && !isClosing
      modifies this, recv, recv.buf
      ensures Valid() && n <= |pending| && stream == old(stream) + pending[..n]
      ensures broken <==> old(recv.len) >= MAX_RECV || (old(recv.size) - old(recv.len) < IO_SIZE && !memory)
      ensures broken || hangup ==> n == 0
      ensures !broken && !hangup && pending != [] ==> n > 0
      ensures failure == if broken then Broken(old(recv.len) >= MAX_RECV) else if hangup then HungUp else Fine
    {
      hide Drain;
      assert stream + pending[..0] == stream;
      var arriving := if hangup then [] else pending;
      n, broken := recv.Receive(arriving, memory);
      if broken {
        log := log + [ReadFailed(recv.len >= MAX_RECV)];
        isClosing := true;
        failure := Broken(recv.len >= MAX_RECV);
      } else if hangup {
        isClosing := true;
        failure := HungUp;
      } else if n > 0 {
        Arrived(pending[..n]);
      }
    }
  }

  // ---------- publishing ----------

  /** The length field the sender writes: at most `room` bytes. */
  function LengthBytes(n: nat, room: nat): seq<byte> {
    if room == 0 then []
    else if n / 0x80 > 0 then [Byte(n % 0x80) | 0x80] + LengthBytes(n / 0x80, room - 1)
    else [Byte(n % 0x80)]
  }

  function HeaderBytes(cmd: byte, flags: byte, len: nat): seq<byte> {
    [(cmd << 4) | flags] + LengthBytes(len, 4)
  }

  function LengthByte(n: nat): byte {
    if n / 0x80 > 0 then Byte(n % 0x80) | 0x80 else Byte(n % 0x80)
  }

  lemma LengthStep(n: nat, room: nat)
    requires room > 0
    ensures LengthBytes(n, room) ==
            [LengthByte(n)] + if n / 0x80 > 0 && room > 1 then LengthBytes(n / 0x80, room - 1) else []
  {
  }

  lemma Regroup(header: seq<byte>, b: byte, rest: seq<byte>)
    ensures header + ([b] + rest) == header + [b] + rest && header + [b] + [] == header + [b]
  {
  }

  /** The do-while loop of `mg_mqtt_send_header`. */
  method MakeHeader(cmd: byte, flags: byte, len0: nat) returns (header: seq<byte>)
    ensures header == HeaderBytes(cmd, flags, len0)
  {
    hide Byte, LengthBytes;
    header := [(cmd << 4) | flags];
    ghost var first := header;
    var len: nat := len0;
    var more := true;
    while more
      invariant 1 <= |header| <= 5 && (more ==> |header| < 5)
      invariant first + LengthBytes(len0, 4) == header + if more then LengthBytes(len, 5 - |header|) else []
      decreases more, 5 - |header|
    {
      LengthStep(len, 5 - |header|);
      ghost var rest := if len / 0x80 > 0 && |header| < 4 then LengthBytes(len / 0x80, 4 - |header|) else [];
      Regroup(header, LengthByte(len), rest);
      var b := Byte(len % 0x80);
      len := len / 0x80;
      if len > 0 {
        b := b | 0x80;
      }
      header := header + [b];
      more := len > 0 && |header| < 5;
    }
  }

  const TWO28: nat := 0x1000_0000

  datatype Publication = Publication(topic: seq<byte>, data: seq<byte>, qos: byte, retain: bool)

  function FlagsOf(p: Publication): byte { ((p.qos & 3) << 1) | (if p.retain then 1 else 0) }

  predicate Acked(p: Publication) { p.qos & 3 != 0 }

  /** The bytes that follow the fixed header. */
  function Remaining(p: Publication): nat { 2 + |p.topic| + |p.data| + if Acked(p) then 2 else 0 }

  /** The length field the sender computes, with its 32-bit truncations. */
  function TotalOf(p: Publication): nat {
    (2 + |p.topic| % TWO32 + |p.data| % TWO32 + if Acked(p) then 2 else 0) % TWO32
  }

  /** The bytes of a PUBLISH packet, with the 16-bit and 32-bit truncations of the sender. */
  function PublishBytes(p: Publication, id: nat): seq<byte>
    requires id < 0x1_0000
  {
    HeaderBytes(CMD_PUBLISH, FlagsOf(p), TotalOf(p)) + Be16(|p.topic| % 0x1_0000) + p.topic
    + (if Acked(p) then Be16(id) else []) + p.data
  }

  class Sender {
    const send: IoBuf
    var id: nat   // the static packet counter

    ghost predicate Valid()
      reads this, send, send.buf
    {
      send.Valid() && id < 0x1_0000
    }

    constructor (send: IoBuf)
      requires send.Valid()
      ensures Valid() && this.send == send && id == 0
    {
      this.send := send;
      id := 0;
    }

    /** `mg_send`: all of the bytes or none; it returns false also when there are none to send. */
    method Send(bytes: seq<byte>, memory: bool) returns (ok: bool)
      requires send.Valid()
      modifies send, send.buf
      ensures send.Valid() && send.Contents() == old(send.Contents()) + if ok then bytes else []
      ensures send.buf == old(send.buf) || fresh(send.buf)
      ensures memory && bytes != [] ==> ok
      ensures ok ==> bytes != []
    {
      ghost var s := send.AsState();
      var n := send.Append(bytes, IO_SIZE, memory);
      assert send.Contents() == send.AsState().held && s.held + [] == s.held;
      ok := n > 0;
    }

    /** One more send of a packet; `parts` and `kept` are the sends so far and which of them were taken. */
    method SendPart(i: nat, bytes: seq<byte>, memory: nat -> bool, ghost s0: seq<byte>,
                    ghost parts: seq<seq<byte>>, ghost kept: seq<bool>)
      returns (ghost parts': seq<seq<byte>>, ghost kept': seq<bool>)
      requires send.Valid() && |kept| == |parts| == i && TakenIfRoom(kept, memory)
      requires send.Contents() == s0 + Kept(parts, kept)
      modifies send, send.buf
      ensures send.Valid() && (send.buf == old(send.buf) || fresh(send.buf))
      ensures parts' == parts + [bytes] && |kept'| == |parts'| && TakenIfRoom(kept', memory)
      ensures send.Contents() == s0 + Kept(parts', kept')
    {
      hide *;
      var ok := Send(bytes, memory(i));
      ghost var taken := ok || bytes == [];
      parts', kept' := parts + [bytes], kept + [taken];
      ghost var sent := if ok then bytes else [];
      KeptSnoc(parts, kept, bytes, taken);
      TakenSnoc(kept, memory, taken);
      assert s0 + Kept(parts, kept) + sent == s0 + (Kept(parts, kept) + sent);
    }

    /** The packet counter skips zero. */
    method NextId()
      requires id < 0x1_0000
      modifies this`id
      ensures 0 < id < 0x1_0000 && id == old(id) % 0xffff + 1
    {
      id := (id + 1) % 0x1_0000;
      if id == 0 {
        id := id + 1;
      }
    }

    /**
     `mg_mqtt_pub`; the packet identifier it used is returned. `memory(i)` is whether the i-th send
     finds memory if it needs any; a send that does not is skipped, and the others go on.
     */
    method Publish(p: Publication, memory: nat -> bool) returns (used: nat, ghost kept: seq<bool>)
      requires Valid()
      modifies this, send, send.buf
      ensures Valid() && used == id == if Acked(p) then old(id) % 0xffff + 1 else old(id)
      ensures |kept| == |Parts(p, used)| && TakenIfRoom(kept, memory)
      ensures send.Contents() == old(send.Contents()) + Kept(Parts(p, used), kept)
      ensures (forall i :: memory(i)) ==> send.Contents() == old(send.Contents()) + PublishBytes(p, used)
    {
      hide Kept, Parts, PublishBytes, Acked;
      used, kept := SendParts(p, memory);
      AllKept(p, used, kept);
    }

    /** The sends, with the packet counter advanced for an identifier. */
    method SendParts(p: Publication, memory: nat -> bool) returns (used: nat, ghost kept: seq<bool>)
      requires send.Valid() && id < 0x1_0000
      modifies this, send, send.buf
      ensures send.Valid() && id < 0x1_0000 && used == id == if Acked(p) then old(id) % 0xffff + 1 else old(id)
      ensures |kept| == |Parts(p, used)| && TakenIfRoom(kept, memory)
      ensures send.Contents() == old(send.Contents()) + Kept(Parts(p, used), kept)
    {
      hide *;
      ghost var s0 := send.Contents();
      ghost var parts;
      parts, kept := SendFront(p, memory);
      var sent := 3;
      if Acked(p) {
        NextId();
        parts, kept := SendPart(sent, Be16(id), memory, s0, parts, kept);
        sent := 4;
      }
      parts, kept := SendPart(sent, p.data, memory, s0, parts, kept);
      used := id;
      PartsAre(p, used);
    }

    /** The fixed header and the topic. */
    method SendFront(p: Publication, memory: nat -> bool) returns (ghost parts: seq<seq<byte>>, ghost kept: seq<bool>)
      requires send.Valid()
      modifies send, send.buf
      ensures send.Valid() && (send.buf == old(send.buf) || fresh(send.buf))
      ensures parts == Front(p) && |kept| == |parts| == 3 && TakenIfRoom(kept, memory)
      ensures send.Contents() == old(send.Contents()) + Kept(parts, kept)
    {
      hide *;
      ghost var s0 := send.Contents();
      KeptNothing(s0, memory);
      parts, kept := [], [];
      var header := MakeHeader(CMD_PUBLISH, FlagsOf(p), TotalOf(p));
      parts, kept := SendPart(0, header, memory, s0, parts, kept);
      parts, kept := SendPart(1, Be16(|p.topic| % 0x1_0000), memory, s0, parts, kept);
      parts, kept := SendPart(2, p.topic, memory, s0, parts, kept);
      FrontIs(p);
    }
  }

  function Front(p: Publication): seq<seq<byte>> {
    [HeaderBytes(CMD_PUBLISH, FlagsOf(p), TotalOf(p)), Be16(|p.topic| % 0x1_0000), p.topic]
  }

  lemma FrontIs(p: Publication)
    ensures var header := HeaderBytes(CMD_PUBLISH, FlagsOf(p), TotalOf(p));
            [] + [header] + [Be16(|p.topic| % 0x1_0000)] + [p.topic] == Front(p)
  {
  }

  /** The sends of a publication. */
  function Parts(p: Publication, id: nat): seq<seq<byte>>
    requires id < 0x1_0000
  {
    Front(p) + (if Acked(p) then [Be16(id)] else []) + [p.data]
  }

  lemma PartsAre(p: Publication, id: nat)
    requires id < 0x1_0000
    ensures Parts(p, id) == (if Acked(p) then Front(p) + [Be16(id)] else Front(p)) + [p.data]
  {
  }

  /** The parts that were taken, one after the other. */
  function Kept(parts: seq<seq<byte>>, kept: seq<bool>): seq<byte>
    requires |parts| == |kept|
  {
    if parts == [] then []
    else
      var n := |parts| - 1;
      Kept(parts[..n], kept[..n]) + if kept[n] then parts[n] else []
  }

  ghost predicate TakenIfRoom(kept: seq<bool>, memory: nat -> bool) {
    forall i :: 0 <= i < |kept| && memory(i) ==> kept[i]
  }

  lemma KeptNothing(s: seq<byte>, memory: nat -> bool)
    ensures s == s + Kept([], []) && TakenIfRoom([], memory)
  {
  }

  lemma TakenSnoc(kept: seq<bool>, memory: nat -> bool, taken: bool)
    requires TakenIfRoom(kept, memory) && (memory(|kept|) ==> taken)
    ensures TakenIfRoom(kept + [taken], memory)
  {
  }

  lemma KeptSnoc(parts: seq<seq<byte>>, kept: seq<bool>, bytes: seq<byte>, ok: bool)
    requires |parts| == |kept|
    ensures Kept(parts + [bytes], kept + [ok]) == Kept(parts, kept) + if ok then bytes else []
  {
    assert (parts + [bytes])[..|parts|] == parts && (kept + [ok])[..|parts|] == kept;
  }

  lemma {:induction false} KeptAll(parts: seq<seq<byte>>, kept: seq<bool>)
    requires |parts| == |kept| && forall i :: 0 <= i < |kept| ==> kept[i]
    ensures Kept(parts, kept) == Flatten(parts)
  {
    if parts != [] {
      KeptAll(parts[..|parts| - 1], kept[..|parts| - 1]);
    }
  }

  lemma FlattenFour(a: seq<byte>, b: seq<byte>, c: seq<byte>, d: seq<byte>)
    ensures Flatten([a, b, c, d]) == a + b + c + d
  {
    hide Flatten;
    FlattenNothing();
    FlattenSnoc([], a);
    assert [] + [a] == [a];
    FlattenSnoc([a], b);
    FlattenSnoc([a, b], c);
    FlattenSnoc([a, b, c], d);
    assert [a] + [b] == [a, b] && [a, b] + [c] == [a, b, c] && [a, b, c] + [d] == [a, b, c, d];
  }

  /** The parts make up the packet. */
  lemma PartsFlatten(p: Publication, id: nat)
    requires id < 0x1_0000
    ensures Flatten(Parts(p, id)) == PublishBytes(p, id)
  {
    hide HeaderBytes, FlagsOf, TotalOf, Be16, Flatten, Acked;
    var h, l, c := HeaderBytes(CMD_PUBLISH, FlagsOf(p), TotalOf(p)), Be16(|p.topic| % 0x1_0000), Be16(id);
    if Acked(p) {
      FlattenFour(h, l, p.topic, c);
      FlattenSnoc([h, l, p.topic, c], p.data);
      assert Parts(p, id) == [h, l, p.topic, c] + [p.data];
    } else {
      FlattenFour(h, l, p.topic, p.data);
      assert Parts(p, id) == [h, l, p.topic, p.data];
      assert h + l + p.topic + [] + p.data == h + l + p.topic + p.data;
    }
  }

  /** When every send is taken, the packet is whole. */
  lemma AllKept(p: Publication, id: nat, kept: seq<bool>)
    requires id < 0x1_0000 && |kept| == |Parts(p, id)|
    ensures (forall i :: 0 <= i < |kept| ==> kept[i]) ==> Kept(Parts(p, id), kept) == PublishBytes(p, id)
  {
    hide Kept, Parts, PublishBytes;
    if forall i :: 0 <= i < |kept| ==> kept[i] {
      KeptAll(Parts(p, id), kept);
      PartsFlatten(p, id);
    }
  }

  // ---------- publish, then parse ----------

  lemma LengthByteBits(n: nat)
    requires n < 0x80
    ensures Byte(n) & 0x7f == Byte(n) && !Continues(Byte(n))
    ensures (Byte(n) | 0x80) & 0x7f == Byte(n) && Continues(Byte(n) | 0x80)
  {
    var b := Byte(n);
    assert b < 0x80 by {
      ByteBelow(b);
    }
    SevenBits(b);
  }

  /** Reading the first length byte that was written. */
  lemma LengthDecodesOne(m: nat, k: nat, n: nat, tail: seq<byte>)
    requires k < 4
    ensures RemainingLength(LengthBytes(m, 4 - k) + tail, k, n) ==
            var n' := n + m % 0x80 * Pow128(k);
            if m / 0x80 == 0 then Length(n', k + 1)
            else if k + 1 == 4 then TooLong
            else RemainingLength(LengthBytes(m / 0x80, 3 - k) + tail, k + 1, n')
  {
    hide Byte, Num;
    var s := LengthBytes(m, 4 - k);
    LengthByteBits(m % 0x80);
    assert Num(Byte(m % 0x80)) == m % 0x80;
    assert (s + tail)[0] == s[0] == LengthByte(m);
    assert (s + tail)[1..] == s[1..] + tail;
    assert m / 0x80 > 0 && k < 3 ==> s[1..] == LengthBytes(m / 0x80, 3 - k);
  }

  lemma PowStep(m: nat, k: nat)
    requires k < 3
    ensures m / 0x80 * Pow128(k + 1) + m % 0x80 * Pow128(k) == m * Pow128(k)
    ensures m / 0x80 * Pow128(k + 1) >= TWO28 <==> m * Pow128(k) >= TWO28
  {
  }

  lemma PowEdge(m: nat, k: nat)
    requires k < 4
    ensures m / 0x80 == 0 ==> m * Pow128(k) < TWO28 && m % 0x80 == m
    ensures m / 0x80 > 0 && k == 3 ==> m * Pow128(k) >= TWO28
  {
  }

  /** The decoder undoes the encoder, from any of the four positions; where the number is too big it says so. */
  lemma {:induction false} LengthDecodes(m: nat, k: nat, n: nat, tail: seq<byte>)
    requires k < 4
    ensures RemainingLength(LengthBytes(m, 4 - k) + tail, k, n) ==
            if m * Pow128(k) < TWO28 then Length(n + m * Pow128(k), k + |LengthBytes(m, 4 - k)|) else TooLong
    decreases 4 - k
  {
    hide Byte, RemainingLength, Pow128, LengthBytes;
    LengthDecodesOne(m, k, n, tail);
    LengthStep(m, 4 - k);
    if m / 0x80 > 0 && k < 3 {
      LengthDecodes(m / 0x80, k + 1, n + m % 0x80 * Pow128(k), tail);
      PowStep(m, k);
    } else {
      PowEdge(m, k);
    }
  }

  lemma FirstByte(p: Publication)
    ensures var b := (CMD_PUBLISH << 4) | FlagsOf(p);
            b >> 4 == CMD_PUBLISH && (b >> 1) & 3 == p.qos & 3
  {
  }

  /** What follows the length field. */
  function BodyBytes(p: Publication, id: nat): seq<byte>
    requires id < 0x1_0000
  {
    Be16(|p.topic| % 0x1_0000) + p.topic + (if Acked(p) then Be16(id) else []) + p.data
  }

  lemma PublishShape(p: Publication, id: nat, tail: seq<byte>)
    requires id < 0x1_0000
    ensures var s, l := PublishBytes(p, id), LengthBytes(TotalOf(p), 4);
            && s == [(CMD_PUBLISH << 4) | FlagsOf(p)] + l + BodyBytes(p, id)
            && (s + tail)[1..] == l + (BodyBytes(p, id) + tail)
            && |s| == 1 + |l| + Remaining(p) && |s| >= 3
  {
    hide HeaderBytes, LengthBytes, Be16, FlagsOf;
    var l := LengthBytes(TotalOf(p), 4);
    assert HeaderBytes(CMD_PUBLISH, FlagsOf(p), TotalOf(p)) == [(CMD_PUBLISH << 4) | FlagsOf(p)] + l by {
      HeaderShape(p);
    }
    var h := [(CMD_PUBLISH << 4) | FlagsOf(p)] + l;
    var a, c := Be16(|p.topic| % 0x1_0000), if Acked(p) then Be16(id) else [];
    assert h + a + p.topic + c + p.data == h + (a + p.topic + c + p.data);
  }

  lemma HeaderShape(p: Publication)
    ensures HeaderBytes(CMD_PUBLISH, FlagsOf(p), TotalOf(p)) ==
            [(CMD_PUBLISH << 4) | FlagsOf(p)] + LengthBytes(TotalOf(p), 4)
  {
  }

  /** The message a whole publication parses to; h is the length of its fixed header. */
  function Echo(p: Publication, id: nat, h: nat): Message {
    var q := h + 2 + |p.topic|;
    if Acked(p) then
      Message(CMD_PUBLISH, p.qos & 3, 0, id, Span(h + 2, |p.topic|), Span(q + 2, |p.data|), h + Remaining(p))
    else
      Message(CMD_PUBLISH, p.qos & 3, 0, 0, Span(h + 2, |p.topic|), Span(q, |p.data|), h + Remaining(p))
  }

  lemma BodyLayout(p: Publication, id: nat)
    requires id < 0x1_0000 && |p.topic| < 0x1_0000
    ensures var body := BodyBytes(p, id);
            var q := 2 + |p.topic|;
            && |body| == Remaining(p)
            && U16(body[0], body[1]) == |p.topic|
            && body[2..q] == p.topic && body[|body| - |p.data|..] == p.data
            && (Acked(p) ==> U16(body[q], body[q + 1]) == id)
  {
    hide Be16, U16;
    var body, q := BodyBytes(p, id), 2 + |p.topic|;
    var a := Be16(|p.topic| % 0x1_0000);
    assert body[0] == a[0] && body[1] == a[1];
    if Acked(p) {
      var c := Be16(id);
      assert body[q] == c[0] && body[q + 1] == c[1];
    }
  }

  lemma BodyParses(p: Publication, id: nat, pkt: seq<byte>, h: nat)
    requires id < 0x1_0000 && |p.topic| < 0x1_0000 && 2 <= h <= |pkt|
    requires pkt[0] == (CMD_PUBLISH << 4) | FlagsOf(p) && pkt[h..] == BodyBytes(p, id)
    ensures ParseBody(pkt, h) == Ok(Echo(p, id, h))
    ensures pkt[h + 2..h + 2 + |p.topic|] == p.topic && pkt[|pkt| - |p.data|..] == p.data
  {
    hide FlagsOf, U16, BodyBytes;
    FirstByte(p);
    BodyLayout(p, id);
    var body, q := pkt[h..], 2 + |p.topic|;
    assert pkt[h] == body[0] && pkt[h + 1] == body[1];
    assert pkt[h + 2..h + q] == body[2..q] && pkt[|pkt| - |p.data|..] == body[|body| - |p.data|..];
    if Acked(p) {
      assert pkt[h + q] == body[q] && pkt[h + q + 1] == body[q + 1];
    }
  }

  lemma PublishCuts(p: Publication, id: nat, tail: seq<byte>)
    requires id < 0x1_0000
    ensures var s, l := PublishBytes(p, id), LengthBytes(TotalOf(p), 4);
            && |s| == 1 + |l| + Remaining(p) && |l| >= 1
            && s[0] == (CMD_PUBLISH << 4) | FlagsOf(p) && s[1 + |l|..] == BodyBytes(p, id)
            && (s + tail)[..|s|] == s && (s + tail)[1..] == l + (BodyBytes(p, id) + tail)
  {
    hide FlagsOf, PublishBytes, LengthBytes, BodyBytes;
    PublishShape(p, id, tail);
    LengthStep(TotalOf(p), 4);
  }

  /** Within the limits nothing is truncated. */
  lemma TotalIsRemaining(p: Publication)
    requires Remaining(p) < TWO28
    ensures TotalOf(p) == Remaining(p)
  {
    Untruncated(|p.topic|);
    Untruncated(|p.data|);
    Untruncated(Remaining(p));
  }

  lemma Untruncated(n: nat)
    requires n < TWO28
    ensures n % TWO32 == n
  {
  }

  /** A publication within the limits of the protocol parses back, whatever follows it. */
  lemma PublishParses(p: Publication, id: nat, tail: seq<byte>)
    requires id < 0x1_0000 && |p.topic| < 0x1_0000 && Remaining(p) < TWO28
    ensures var s := PublishBytes(p, id);
            var h := |s| - Remaining(p);
            && Parse(s + tail) == Ok(Echo(p, id, h))
            && s[h + 2..h + 2 + |p.topic|] == p.topic && s[|s| - |p.data|..] == p.data
  {
    hide FlagsOf, ParseBody, RemainingLength, PublishBytes, LengthBytes, BodyBytes, Parse, TotalOf, Remaining, Echo;
    var s := PublishBytes(p, id);
    var l := LengthBytes(TotalOf(p), 4);
    PublishCuts(p, id, tail);
    TotalIsRemaining(p);
    LengthDecodes(TotalOf(p), 0, 0, BodyBytes(p, id) + tail);
    ParseWhole(s + tail, Remaining(p), |l|);
    BodyParses(p, id, s, 1 + |l|);
  }

  /** The parsed message carries the publication. */
  predicate Carries(s: seq<byte>, p: Publication, id: nat, emitted: nat)
    requires Parse(s).Ok?
  {
    SpansFit(s);
    var d := Deliver(s, Parse(s).msg);
    d.cmd == CMD_PUBLISH && d.qos == p.qos & 3 && d.topic == p.topic && d.data == p.data
    && d.id == (if Acked(p) then id else 0) && |d.dgram| == emitted
  }

  lemma TopicShort(pkt: seq<byte>, p: nat)
    requires 2 <= p <= |pkt| && ParseBody(pkt, p).Ok?
    ensures ParseBody(pkt, p).msg.topic.len < 0x1_0000
  {
  }

  lemma ParsedTopic(s: seq<byte>)
    requires Parse(s).Ok?
    ensures Parse(s).msg.topic.len < 0x1_0000
    ensures exists n: nat, used: nat ::
              RemainingLength(s[1..], 0, 0) == Length(n, used) && Parse(s).msg.dgramLen == 1 + used + n
  {
    hide ParseBody, RemainingLength;
    var n, used := RemainingLength(s[1..], 0, 0).n, RemainingLength(s[1..], 0, 0).used;
    assert RemainingLength(s[1..], 0, 0) == Length(n, used);
    TopicShort(s[..1 + used + n], 1 + used);
    BodyExtent(s[..1 + used + n], 1 + used);
  }

  /**
   Publishing and parsing: for every publication, packet identifier and following bytes, the parser
   returns the publication and its exact extent if and only if the topic is shorter than 2^16 bytes
   and the remaining length below 2^28.
   */
  lemma PublishRoundTrip(p: Publication, id: nat, tail: seq<byte>)
    requires id < 0x1_0000
    ensures var s := PublishBytes(p, id);
            Parse(s + tail).Ok? && Carries(s + tail, p, id, |s|) <==>
            |p.topic| < 0x1_0000 && Remaining(p) < TWO28
  {
    hide PublishBytes, Parse;
    var s := PublishBytes(p, id);
    if |p.topic| < 0x1_0000 && Remaining(p) < TWO28 {
      PublishCarried(p, id, tail);
    } else if Parse(s + tail).Ok? && Carries(s + tail, p, id, |s|) {
      TooBigIsLost(p, id, tail);
    }
  }

  lemma PublishCarried(p: Publication, id: nat, tail: seq<byte>)
    requires id < 0x1_0000 && |p.topic| < 0x1_0000 && Remaining(p) < TWO28
    ensures var s := PublishBytes(p, id);
            Parse(s + tail).Ok? && Carries(s + tail, p, id, |s|)
  {
    hide PublishBytes, Parse, Deliver;
    SentDelivered(Sent(p, id), tail);
    SpansFit(PublishBytes(p, id) + tail);
  }

  lemma TooBigIsLost(p: Publication, id: nat, tail: seq<byte>)
    requires id < 0x1_0000 && Parse(PublishBytes(p, id) + tail).Ok?
    requires Carries(PublishBytes(p, id) + tail, p, id, |PublishBytes(p, id)|)
    ensures |p.topic| < 0x1_0000 && Remaining(p) < TWO28
  {
    hide FlagsOf, ParseBody, RemainingLength, PublishBytes, LengthBytes, Parse, BodyBytes;
    var t := PublishBytes(p, id) + tail;
    PublishCuts(p, id, tail);
    SpansFit(t);
    ParsedTopic(t);
    LengthDecodes(TotalOf(p), 0, 0, BodyBytes(p, id) + tail);
  }

  // ---------- a conversation ----------

  datatype Sent = Sent(p: Publication, id: nat)

  predicate Sendable(x: Sent) { x.id < 0x1_0000 && |x.p.topic| < 0x1_0000 && Remaining(x.p) < TWO28 }

  function SentBytes(xs: seq<Sent>): seq<byte>
    requires forall k :: 0 <= k < |xs| ==> Sendable(xs[k])
  {
    if xs == [] then []
    else
      assert Sendable(xs[0]);
      PublishBytes(xs[0].p, xs[0].id) + SentBytes(xs[1..])
  }

  function SentEvents(xs: seq<Sent>): seq<Event>
    requires forall k :: 0 <= k < |xs| ==> Sendable(xs[k])
  {
    if xs == [] then []
    else
      var x := xs[0];
      assert Sendable(x);
      [Msg(EchoDelivered(x)), Cmd(EchoDelivered(x))] + SentEvents(xs[1..])
  }

  function EchoDelivered(x: Sent): Delivered
    requires Sendable(x)
  {
    Delivered(CMD_PUBLISH, x.p.qos & 3, 0, if Acked(x.p) then x.id else 0, x.p.topic, x.p.data, PublishBytes(x.p, x.id))
  }

  lemma SentDelivered(x: Sent, rest: seq<byte>)
    requires Sendable(x)
    ensures var s := PublishBytes(x.p, x.id);
            var h := |s| - Remaining(x.p);
            && h >= 0 && Parse(s + rest) == Ok(Echo(x.p, x.id, h))
            && Deliver(s + rest, Echo(x.p, x.id, h)) == EchoDelivered(x)
  {
    hide PublishBytes, Parse, LengthBytes, BodyBytes, FlagsOf;
    var s := PublishBytes(x.p, x.id);
    PublishParses(x.p, x.id, rest);
    PublishCuts(x.p, x.id, rest);
    var h := |s| - Remaining(x.p);
    DeliverPrefix(s, rest, Echo(x.p, x.id, h));
    assert s[..|s|] == s && s[|s| - |x.p.data|..|s|] == s[|s| - |x.p.data|..];
  }

  lemma EchoEvents(x: Sent)
    requires Sendable(x)
    ensures EventsOf(EchoDelivered(x)) == [Msg(EchoDelivered(x)), Cmd(EchoDelivered(x))] && !Refuses(EchoDelivered(x))
  {
    hide PublishBytes;
  }

  /** One packet at the front of the stream. */
  lemma DrainOneSent(x: Sent, rest: seq<byte>)
    requires Sendable(x)
    ensures Drain(PublishBytes(x.p, x.id) + rest) ==
            Then(Outcome([Msg(EchoDelivered(x)), Cmd(EchoDelivered(x))], [], false), Drain(rest))
  {
    hide PublishBytes, Parse, Drain, Deliver, EventsOf, Refuses, EchoDelivered;
    var s := PublishBytes(x.p, x.id);
    SentDelivered(x, rest);
    EchoEvents(x);
    DrainOne(s + rest);
    assert (s + rest)[|s|..] == rest;
  }

  lemma {:induction false} DrainSent(xs: seq<Sent>)
    requires forall k :: 0 <= k < |xs| ==> Sendable(xs[k])
    ensures Drain(SentBytes(xs)) == Outcome(SentEvents(xs), [], false)
  {
    hide PublishBytes, Parse;
    if xs == [] {
      ParseNothing();
    } else {
      DrainSent(xs[1..]);
      DrainOneSent(xs[0], SentBytes(xs[1..]));
    }
  }

  lemma ParseNothing()
    ensures Parse([]) == Incomplete
  {
  }

  /**
   Whatever is published, and however the bytes are cut into reads, exactly those messages are
   delivered, by the handler and by the poll loop.
   */
  lemma PublishedIsDelivered(xs: seq<Sent>, chunks: seq<seq<byte>>)
    requires (forall k :: 0 <= k < |xs| ==> Sendable(xs[k])) && Flatten(chunks) == SentBytes(xs)
    ensures Feed(Drain, chunks) == Outcome(SentEvents(xs), [], false)
    ensures Served(Drain, chunks) == Outcome(SentEvents(xs), [], false)
  {
    hide Drain;
    Fragmentation(chunks);
    DrainSent(xs);
    DrainSplits();
    ServedWhole(Drain, chunks);
  }

  // ---------- every kind of packet, with literal command numbers ----------

  /** A packet: its first byte, the length of its body, and the body. */
  function PacketOf(b: byte, body: seq<byte>): seq<byte> {
    [b] + LengthBytes(|body|, 4) + body
  }

  lemma PacketParts(b: byte, body: seq<byte>, rest: seq<byte>)
    requires |body| < TWO28
    ensures var s, l := PacketOf(b, body) + rest, LengthBytes(|body|, 4);
            && |l| >= 1 && |PacketOf(b, body)| == 1 + |l| + |body|
            && s[0] == b && s[..1 + |l| + |body|] == PacketOf(b, body)
            && PacketOf(b, body)[1 + |l|..] == body && PacketOf(b, body)[0] == b
            && RemainingLength(s[1..], 0, 0) == Length(|body|, |l|)
  {
    hide LengthBytes, RemainingLength, Pow128;
    var s, l := PacketOf(b, body) + rest, LengthBytes(|body|, 4);
    LengthStep(|body|, 4);
    assert s[1..] == l + (body + rest);
    LengthDecodes(|body|, 0, 0, body + rest);
    PowOne(|body|);
  }

  lemma PowOne(n: nat)
    ensures n * Pow128(0) == n
  {
  }

  lemma PacketParses(b: byte, body: seq<byte>, rest: seq<byte>)
    requires |body| < TWO28
    ensures Parse(PacketOf(b, body) + rest) == ParseBody(PacketOf(b, body), 1 + |LengthBytes(|body|, 4)|)
  {
    hide LengthBytes, RemainingLength, Parse, ParseBody, PacketOf;
    PacketParts(b, body, rest);
    ParseWhole(PacketOf(b, body) + rest, |body|, |LengthBytes(|body|, 4)|);
  }

  /** What is delivered for a packet: its command and QoS, and the whole packet; the rest is given. */
  function Delivery(b: byte, ack: byte, id: nat, topic: seq<byte>, data: seq<byte>, body: seq<byte>): Delivered {
    Delivered(b >> 4, (b >> 1) & 3, ack, id, topic, data, PacketOf(b, body))
  }

  lemma Malforms(s: seq<byte>)
    requires Parse(s) == Malformed
    ensures Drain(s) == Outcome([], s, true)
  {
  }

  /** The events of a packet that parses to `m`, whose spans are cut from the packet itself. */
  lemma Fires(b: byte, body: seq<byte>, rest: seq<byte>, m: Message, d: Delivered)
    requires |body| < TWO28 && Parse(PacketOf(b, body) + rest) == Ok(m) && m.dgramLen == |PacketOf(b, body)|
    requires m.topic.off + m.topic.len <= m.dgramLen && m.data.off + m.data.len <= m.dgramLen
    requires d == Deliver(PacketOf(b, body), m)
    ensures Drain(PacketOf(b, body) + rest) == Then(Outcome(EventsOf(d), [], Refuses(d)), Drain(rest))
  {
    hide PacketOf, Parse, EventsOf, Refuses, Drain, Deliver;
    var pkt := PacketOf(b, body);
    DeliverPrefix(pkt, rest, m);
    DrainOne(pkt + rest);
    assert (pkt + rest)[|pkt|..] == rest;
  }

  /** CONNACK: the return code is the second byte of the body; a refusal closes the connection. */
  lemma Connack(b: byte, body: seq<byte>, rest: seq<byte>)
    requires b >> 4 == 2 && |body| < TWO28
    ensures |body| < 2 ==> Drain(PacketOf(b, body) + rest) == Outcome([], PacketOf(b, body) + rest, true)
    ensures |body| >= 2 ==>
              var d := Delivery(b, body[1], 0, [], [], body);
              Drain(PacketOf(b, body) + rest) ==
              Then(Outcome([Open(body[1]), Cmd(d)], [], body[1] != 0), Drain(rest))
  {
    hide Drain, Parse, PacketOf, LengthBytes, RemainingLength;
    PacketParts(b, body, rest);
    PacketParses(b, body, rest);
    var pkt, p := PacketOf(b, body), 1 + |LengthBytes(|body|, 4)|;
    if |body| < 2 {
      Malforms(pkt + rest);
    } else {
      assert pkt[p + 1] == pkt[p..][1];
      var m := Message(2, (b >> 1) & 3, body[1], 0, Span(0, 0), Span(0, 0), |pkt|);
      PlainDelivery(b, body, m);
      Fires(b, body, rest, m, Delivery(b, body[1], 0, [], [], body));
    }
  }

  /** The body of an acknowledgement. */
  lemma AckBody(pkt: seq<byte>, p: nat)
    requires 2 <= p <= |pkt| && 4 <= pkt[0] >> 4 <= 9
    ensures |pkt| < p + 2 ==> ParseBody(pkt, p) == Malformed
    ensures |pkt| >= p + 2 ==>
              ParseBody(pkt, p) ==
              Ok(Message(pkt[0] >> 4, (pkt[0] >> 1) & 3, 0, U16(pkt[p], pkt[p + 1]), Span(0, 0), Span(0, 0), |pkt|))
  {
    hide U16;
  }

  lemma AckFires(b: byte, body: seq<byte>, rest: seq<byte>)
    requires 4 <= b >> 4 <= 9 && |body| < TWO28
    ensures |body| < 2 ==> Drain(PacketOf(b, body) + rest) == Outcome([], PacketOf(b, body) + rest, true)
    ensures |body| >= 2 ==>
              var d := Delivery(b, 0, U16(body[0], body[1]), [], [], body);
              Drain(PacketOf(b, body) + rest) == Then(Outcome([Cmd(d)], [], false), Drain(rest))
  {
    hide Drain, Parse, ParseBody, PacketOf, LengthBytes, RemainingLength, Delivery, EventsOf, Refuses, Deliver, U16;
    PacketParts(b, body, rest);
    PacketParses(b, body, rest);
    var pkt, p := PacketOf(b, body), 1 + |LengthBytes(|body|, 4)|;
    AckBody(pkt, p);
    if |body| < 2 {
      Malforms(pkt + rest);
    } else {
      assert pkt[p] == pkt[p..][0] && pkt[p + 1] == pkt[p..][1];
      var id := U16(body[0], body[1]);
      var m := Message(b >> 4, (b >> 1) & 3, 0, id, Span(0, 0), Span(0, 0), |pkt|);
      PlainDelivery(b, body, m);
      Fires(b, body, rest, m, Delivery(b, 0, id, [], [], body));
    }
  }

  /** PUBACK, PUBREC, PUBREL, PUBCOMP, SUBSCRIBE and SUBACK: the identifier is the first two bytes of the body. */
  lemma Acknowledgement(b: byte, body: seq<byte>, rest: seq<byte>)
    requires 4 <= b >> 4 <= 9 && |body| < TWO28
    ensures |body| < 2 ==> Drain(PacketOf(b, body) + rest) == Outcome([], PacketOf(b, body) + rest, true)
    ensures |body| >= 2 ==>
              var d := Delivery(b, 0, 256 * (body[0] as nat) + body[1] as nat, [], [], body);
              Drain(PacketOf(b, body) + rest) == Then(Outcome([Cmd(d)], [], false), Drain(rest))
  {
    hide Drain, PacketOf, Delivery;
    AckFires(b, body, rest);
    if |body| >= 2 {
      NetworkOrder(body[0], body[1], 0, 0);
    }
  }

  /** A message without topic and data. */
  lemma PlainDelivery(b: byte, body: seq<byte>, m: Message)
    requires m == Message(b >> 4, (b >> 1) & 3, m.ack, m.id, Span(0, 0), Span(0, 0), |PacketOf(b, body)|)
    ensures var d := Delivery(b, m.ack, m.id, [], [], body);
            && Deliver(PacketOf(b, body), m) == d
            && (m.cmd == 2 ==> EventsOf(d) == [Open(m.ack), Cmd(d)] && Refuses(d) == (m.ack != 0))
            && (m.cmd != 2 && m.cmd != 3 ==> EventsOf(d) == [Cmd(d)] && !Refuses(d))
  {
    hide PacketOf;
    assert PacketOf(b, body)[..|PacketOf(b, body)|] == PacketOf(b, body);
  }

  /** Every other command that is not PUBLISH: the packet is passed on as it is. */
  lemma OtherCommand(b: byte, body: seq<byte>, rest: seq<byte>)
    requires (b >> 4 < 2 || b >> 4 > 9) && |body| < TWO28
    ensures var d := Delivery(b, 0, 0, [], [], body);
            Drain(PacketOf(b, body) + rest) == Then(Outcome([Cmd(d)], [], false), Drain(rest))
  {
    hide Drain, Parse, PacketOf, LengthBytes, RemainingLength;
    PacketParts(b, body, rest);
    PacketParses(b, body, rest);
    var m := Message(b >> 4, (b >> 1) & 3, 0, 0, Span(0, 0), Span(0, 0), |PacketOf(b, body)|);
    PlainDelivery(b, body, m);
    Fires(b, body, rest, m, Delivery(b, 0, 0, [], [], body));
  }

  /** Where the topic of a PUBLISH ends: its length is in the first two bytes of the body. */
  function TopicEnd(body: seq<byte>): nat
    requires |body| >= 2
  {
    2 + 256 * (body[0] as nat) + body[1] as nat
  }

  /** Whether the body of a PUBLISH has room for its topic and, above QoS 0, its identifier. */
  predicate RoomForTopic(qos: byte, body: seq<byte>) {
    |body| >= 2 && TopicEnd(body) + (if qos == 0 then 0 else 2) <= |body|
  }

  /** PUBLISH: the topic after its two length bytes, the identifier above QoS 0, then the data; or malformed. */
  lemma PublishPacket(b: byte, body: seq<byte>, rest: seq<byte>)
    requires b >> 4 == 3 && |body| < TWO28
    ensures !RoomForTopic((b >> 1) & 3, body) ==>
              Drain(PacketOf(b, body) + rest) == Outcome([], PacketOf(b, body) + rest, true)
    ensures RoomForTopic((b >> 1) & 3, body) ==>
              var d := PublishDelivery(b, body);
              Drain(PacketOf(b, body) + rest) == Then(Outcome([Msg(d), Cmd(d)], [], false), Drain(rest))
  {
    hide Drain, Parse, ParseBody, PacketOf, LengthBytes, RemainingLength, RoomForTopic, PublishDelivery;
    hide Published, EventsOf, Refuses, Deliver;
    PacketParts(b, body, rest);
    PacketParses(b, body, rest);
    var pkt, p := PacketOf(b, body), 1 + |LengthBytes(|body|, 4)|;
    PublishBody(pkt, p, body);
    if RoomForTopic((b >> 1) & 3, body) {
      PublishCutOut(pkt, p, body);
      Fires(b, body, rest, Published(b, p, body), PublishDelivery(b, body));
    } else {
      Malforms(pkt + rest);
    }
  }

  function PublishDelivery(b: byte, body: seq<byte>): Delivered
    requires RoomForTopic((b >> 1) & 3, body)
  {
    var q := TopicEnd(body);
    if (b >> 1) & 3 == 0 then Delivery(b, 0, 0, body[2..q], body[q..], body)
    else Delivery(b, 0, U16(body[q], body[q + 1]), body[2..q], body[q + 2..], body)
  }

  /** What a PUBLISH with room parses to when its body starts at p. */
  function Published(b: byte, p: nat, body: seq<byte>): Message
    requires RoomForTopic((b >> 1) & 3, body)
  {
    var qos, q := (b >> 1) & 3, TopicEnd(body);
    if qos == 0 then
      Message(3, 0, 0, 0, Span(p + 2, q - 2), Span(p + q, |body| - q), p + |body|)
    else
      Message(3, qos, 0, U16(body[q], body[q + 1]), Span(p + 2, q - 2), Span(p + q + 2, |body| - q - 2), p + |body|)
  }

  lemma TopicEndIs(body: seq<byte>)
    requires |body| >= 2
    ensures TopicEnd(body) == 2 + U16(body[0], body[1])
  {
  }

  lemma PublishBody(pkt: seq<byte>, p: nat, body: seq<byte>)
    requires 2 <= p <= |pkt| && pkt[0] >> 4 == 3 && pkt[p..] == body
    ensures ParseBody(pkt, p) ==
            if RoomForTopic((pkt[0] >> 1) & 3, body) then Ok(Published(pkt[0], p, body)) else Malformed
  {
    hide U16, TopicEnd;
    if |body| >= 2 {
      TopicEndIs(body);
      assert pkt[p] == body[0] && pkt[p + 1] == body[1];
      var q := TopicEnd(body);
      if q + 2 <= |body| {
        assert pkt[p + q] == body[q] && pkt[p + q + 1] == body[q + 1];
      }
    }
  }

  /** The spans of a published message, cut from its packet. */
  lemma PublishCutOut(pkt: seq<byte>, p: nat, body: seq<byte>)
    requires 2 <= p <= |pkt| && pkt[p..] == body && pkt == PacketOf(pkt[0], body) && pkt[0] >> 4 == 3
    requires RoomForTopic((pkt[0] >> 1) & 3, body)
    ensures var m, d := Published(pkt[0], p, body), PublishDelivery(pkt[0], body);
            && m.topic.off + m.topic.len <= |pkt| && m.data.off + m.data.len <= |pkt| && m.dgramLen == |pkt|
            && Deliver(pkt, m) == d && EventsOf(d) == [Msg(d), Cmd(d)] && !Refuses(d)
  {
    hide U16, TopicEnd, PacketOf, EventsOf, Refuses;
    PublishEvents(PublishDelivery(pkt[0], body));
    TopicEndIs(body);
    var q := TopicEnd(body);
    CutFrom(pkt, p, 2, q);
    CutFrom(pkt, p, q, |body|);
    if (pkt[0] >> 1) & 3 != 0 {
      CutFrom(pkt, p, q + 2, |body|);
    }
    assert pkt[..|pkt|] == pkt;
  }

  lemma PublishEvents(d: Delivered)
    requires d.cmd == 3
    ensures EventsOf(d) == [Msg(d), Cmd(d)] && !Refuses(d)
  {
  }

  lemma CutFrom(pkt: seq<byte>, p: nat, a: nat, b: nat)
    requires p <= |pkt| && a <= b <= |pkt| - p
    ensures pkt[p..][a..b] == pkt[p + a..p + b] && (b == |pkt| - p ==> pkt[p..][a..] == pkt[p + a..p + b])
  {
  }

  /** The remaining length of one to four bytes, shortest or not, and five bytes that are too many. */
  lemma LengthValues(a: byte, b: byte, c: byte, d: byte, tail: seq<byte>)
    ensures a < 128 ==> RemainingLength([a] + tail, 0, 0) == Length(a as nat, 1)
    ensures a >= 128 && b < 128 ==>
              RemainingLength([a, b] + tail, 0, 0) == Length(a as nat - 128 + 128 * (b as nat), 2)
    ensures a >= 128 && b >= 128 && c < 128 ==>
              RemainingLength([a, b, c] + tail, 0, 0) ==
              Length(a as nat - 128 + 128 * (b as nat - 128) + 16384 * (c as nat), 3)
    ensures a >= 128 && b >= 128 && c >= 128 && d < 128 ==>
              RemainingLength([a, b, c, d] + tail, 0, 0) ==
              Length(a as nat - 128 + 128 * (b as nat - 128) + 16384 * (c as nat - 128) + 2097152 * (d as nat), 4)
    ensures a >= 128 && b >= 128 && c >= 128 && d >= 128 ==> RemainingLength([a, b, c, d] + tail, 0, 0) == TooLong
  {
    hide Scaled, Continues, RemainingLength;
    LengthByte7(a);
    LengthByte7(b);
    LengthByte7(c);
    LengthByte7(d);
    LengthFirst(a, tail, 0, 0);
    LengthFirst(a, [b] + tail, 0, 0);
    LengthFirst(a, [b, c] + tail, 0, 0);
    LengthFirst(a, [b, c, d] + tail, 0, 0);
    LengthRest(b, c, d, tail, Scaled(a, 0));
    assert [a] + ([b] + tail) == [a, b] + tail && [a] + ([b, c] + tail) == [a, b, c] + tail;
    assert [a] + ([b, c, d] + tail) == [a, b, c, d] + tail;
  }

  lemma LengthRest(b: byte, c: byte, d: byte, tail: seq<byte>, n: nat)
    ensures !Continues(b) ==> RemainingLength([b] + tail, 1, n) == Length(n + Scaled(b, 1), 2)
    ensures Continues(b) && !Continues(c) ==>
              RemainingLength([b, c] + tail, 1, n) == Length(n + Scaled(b, 1) + Scaled(c, 2), 3)
    ensures Continues(b) && Continues(c) ==>
              RemainingLength([b, c, d] + tail, 1, n) ==
              if Continues(d) then TooLong else Length(n + Scaled(b, 1) + Scaled(c, 2) + Scaled(d, 3), 4)
  {
    hide Scaled, Continues, RemainingLength;
    LengthFirst(b, tail, 1, n);
    LengthFirst(b, [c] + tail, 1, n);
    LengthFirst(b, [c, d] + tail, 1, n);
    LengthFirst(c, tail, 2, n + Scaled(b, 1));
    LengthFirst(c, [d] + tail, 2, n + Scaled(b, 1));
    LengthFirst(d, tail, 3, n + Scaled(b, 1) + Scaled(c, 2));
    assert [b] + ([c] + tail) == [b, c] + tail && [b] + ([c, d] + tail) == [b, c, d] + tail;
    assert [c] + ([d] + tail) == [c, d] + tail;
  }

  lemma LengthFirst(a: byte, tail: seq<byte>, k: nat, n: nat)
    requires k < 4
    ensures RemainingLength([a] + tail, k, n) ==
            if !Continues(a) then Length(n + Scaled(a, k), k + 1)
            else if k == 3 then TooLong else RemainingLength(tail, k + 1, n + Scaled(a, k))
  {
    hide Scaled, Continues;
    assert ([a] + tail)[1..] == tail;
  }

  lemma LengthByte7(b: byte)
    ensures Continues(b) <==> b >= 128
    ensures Num(b & 0x7f) == if b >= 128 then b as nat - 128 else b as nat
    ensures Scaled(b, 0) == Num(b & 0x7f) && Scaled(b, 1) == 128 * Num(b & 0x7f)
    ensures Scaled(b, 2) == 16384 * Num(b & 0x7f) && Scaled(b, 3) == 2097152 * Num(b & 0x7f)
  {
    SevenLow(b);
  }

  /** The length bytes that are written are the shortest. */
  lemma LengthWritten(n: nat)
    requires n < TWO28
    ensures |LengthBytes(n, 4)| == if n < 128 then 1 else if n < 16384 then 2 else if n < 2097152 then 3 else 4
  {
    hide Byte;
    LengthStep(n, 4);
    LengthStep(n / 128, 3);
    LengthStep(n / 128 / 128, 2);
    LengthStep(n / 128 / 128 / 128, 1);
  }

  /** The first byte of a published packet: the command, the QoS and the retain flag. */
  lemma PublishFirstByte(p: Publication, id: nat)
    requires id < 0x1_0000
    ensures PublishBytes(p, id)[0] == 0x30 | ((p.qos & 3) << 1) | (if p.retain then 1 else 0)
  {
    hide LengthBytes, Be16;
    FirstBits(p.qos & 3, p.retain);
  }

  lemma FirstBits(q: byte, retain: bool)
    ensures var r: byte := if retain then 1 else 0; (3 as byte << 4) | ((q << 1) | r) == 0x30 | (q << 1) | r
  {
  }
}
