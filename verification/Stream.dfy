/**
 Byte streams handled packet by packet. A handler is given by its `drain`: the events a stream
 fires, the bytes left over and whether the connection is to close.
 */
module Stream {
  import opened Bytes

  datatype Outcome<E> = Outcome(events: seq<E>, rest: seq<byte>, closing: bool)

  function Then<E>(a: Outcome<E>, b: Outcome<E>): Outcome<E> {
    Outcome(a.events + b.events, b.rest, a.closing || b.closing)
  }

  lemma ThenAssoc<E>(a: Outcome<E>, b: Outcome<E>, c: Outcome<E>)
    ensures Then(a, Then(b, c)) == Then(Then(a, b), c)
  {
    assert a.events + (b.events + c.events) == a.events + b.events + c.events;
  }

  /** Feeding chunks one after the other, each appended to what the previous ones left over. */
  function Feed<E>(drain: seq<byte> -> Outcome<E>, chunks: seq<seq<byte>>): Outcome<E> {
    if chunks == [] then Outcome([], [], false)
    else
      var o := Feed(drain, chunks[..|chunks| - 1]);
      Then(o, drain(o.rest + chunks[|chunks| - 1]))
  }

  /** Handling a prefix first and then what it left over with the rest appended changes nothing. */
  ghost predicate Splits<E>(drain: seq<byte> -> Outcome<E>) {
    && drain([]) == Outcome([], [], false)
    && forall s: seq<byte>, t: seq<byte> :: drain(s + t) == Then(drain(s), drain(drain(s).rest + t))
  }

  /** However a byte stream is cut into reads, the outcome is that of the uncut stream. */
  lemma {:induction false} FeedsWhole<E>(drain: seq<byte> -> Outcome<E>, chunks: seq<seq<byte>>)
    requires Splits(drain)
    ensures Feed(drain, chunks) == drain(Flatten(chunks))
  {
    if chunks != [] {
      FeedsWhole(drain, chunks[..|chunks| - 1]);
    }
  }

  // ---------- a connection that is to close reads no more ----------

  /** Why reading has stopped, if it has: not for what was read, but for the socket or the buffer. */
  datatype Failure = Fine | HungUp | Broken(full: bool)

  /** What the poll loop gets handled: once a connection is to close, no chunk that follows is read. */
  function Served<E>(drain: seq<byte> -> Outcome<E>, chunks: seq<seq<byte>>): Outcome<E> {
    if chunks == [] then Outcome([], [], false)
    else
      var o := Served(drain, chunks[..|chunks| - 1]);
      if o.closing then o else Then(o, drain(o.rest + chunks[|chunks| - 1]))
  }

  /** How many chunks are read. */
  function ReadCount<E>(drain: seq<byte> -> Outcome<E>, chunks: seq<seq<byte>>): (k: nat)
    ensures k <= |chunks|
  {
    if chunks == [] then 0
    else
      var init := chunks[..|chunks| - 1];
      if Served(drain, init).closing then ReadCount(drain, init) else |chunks|
  }

  /** What is handled is what was read, as one stream; reading stops early only to close. */
  lemma {:induction false} ServedIsDrain<E>(drain: seq<byte> -> Outcome<E>, chunks: seq<seq<byte>>)
    requires Splits(drain)
    ensures Served(drain, chunks) == drain(Flatten(chunks[..ReadCount(drain, chunks)]))
    ensures ReadCount(drain, chunks) < |chunks| ==> Served(drain, chunks).closing
  {
    if chunks != [] {
      var init := chunks[..|chunks| - 1];
      var k := ReadCount(drain, init);
      ServedIsDrain(drain, init);
      assert init[..k] == chunks[..k] && chunks[..|chunks|] == chunks && init[..|init|] == init;
    }
  }

  lemma {:induction false} FlattenConcat(a: seq<seq<byte>>, b: seq<seq<byte>>)
    ensures Flatten(a + b) == Flatten(a) + Flatten(b)
  {
    hide Flatten;
    if b == [] {
      assert a + b == a;
      FlattenNothing();
    } else {
      var init, last := b[..|b| - 1], b[|b| - 1];
      FlattenConcat(a, init);
      assert b == init + [last] && a + b == a + init + [last];
      FlattenSnoc(init, last);
      FlattenSnoc(a + init, last);
    }
  }

  /** The bytes of the chunks that are not read. */
  function Unread<E>(drain: seq<byte> -> Outcome<E>, chunks: seq<seq<byte>>): seq<byte> {
    Flatten(chunks[ReadCount(drain, chunks)..])
  }

  function ReadBytes<E>(drain: seq<byte> -> Outcome<E>, chunks: seq<seq<byte>>): seq<byte> {
    Flatten(chunks[..ReadCount(drain, chunks)])
  }

  /** What is read is a prefix of the stream, and all of it unless the connection is to close. */
  lemma ReadIsPrefix<E>(drain: seq<byte> -> Outcome<E>, chunks: seq<seq<byte>>)
    requires Splits(drain)
    ensures Served(drain, chunks) == drain(ReadBytes(drain, chunks))
    ensures ReadBytes(drain, chunks) + Unread(drain, chunks) == Flatten(chunks)
    ensures ReadBytes(drain, chunks) == Flatten(chunks) || Served(drain, chunks).closing
  {
    hide Served, Splits, Flatten, ReadCount;
    ServedIsDrain(drain, chunks);
    FlattenCut(chunks, ReadCount(drain, chunks));
  }

  lemma FlattenCut(chunks: seq<seq<byte>>, k: nat)
    requires k <= |chunks|
    ensures Flatten(chunks[..k]) + Flatten(chunks[k..]) == Flatten(chunks)
    ensures k == |chunks| ==> Flatten(chunks[..k]) == Flatten(chunks)
  {
    hide Flatten;
    FlattenConcat(chunks[..k], chunks[k..]);
    assert chunks[..k] + chunks[k..] == chunks;
    if k == |chunks| {
      assert chunks[..k] == chunks;
    }
  }

  /** The uncut stream is what was served and then what the unread bytes would have added. */
  lemma ServedThenUnread<E>(drain: seq<byte> -> Outcome<E>, chunks: seq<seq<byte>>)
    requires Splits(drain)
    ensures var o := Served(drain, chunks);
            drain(Flatten(chunks)) == Then(o, drain(o.rest + Unread(drain, chunks)))
  {
    hide Served, ReadBytes, Unread;
    ReadIsPrefix(drain, chunks);
  }

  /** A cut cannot be observed if and only if the unread bytes complete no packet that fires an event. */
  lemma CutUnobserved<E>(drain: seq<byte> -> Outcome<E>, chunks: seq<seq<byte>>)
    requires Splits(drain)
    ensures var o := Served(drain, chunks);
            o.events == drain(Flatten(chunks)).events <==> drain(o.rest + Unread(drain, chunks)).events == []
  {
    hide Served, Unread;
    ServedThenUnread(drain, chunks);
    var o := Served(drain, chunks);
    assert |drain(Flatten(chunks)).events| == |o.events| + |drain(o.rest + Unread(drain, chunks)).events|;
  }

  /** A stream that does not close is served whole, however it is cut. */
  lemma ServedWhole<E>(drain: seq<byte> -> Outcome<E>, chunks: seq<seq<byte>>)
    requires Splits(drain) && !drain(Flatten(chunks)).closing
    ensures Served(drain, chunks) == drain(Flatten(chunks))
  {
    hide Served, ReadBytes, Unread, Flatten;
    ServedThenUnread(drain, chunks);
    ReadIsPrefix(drain, chunks);
  }
}
