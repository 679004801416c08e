/** The growable byte buffer behind every connection. */
module IoBuf {
  import opened Arithmetic
  import opened Bytes

  const IO_SIZE: nat := 2048
  const MAX_RECV: nat := 3 * 1024 * 1024

  /** The size an append asks for: past `need`, aligned to the chunk size. */
  function GrownSize(need: nat, chunkSize: nat): (size: nat)
    requires chunkSize > 0
    ensures need < size <= need + chunkSize && size % chunkSize == 0
  {
    var padded := need + chunkSize;
    var q := padded / chunkSize;
    assert padded - padded % chunkSize == q * chunkSize;
    Remainder(q * chunkSize, q, chunkSize, 0);
    padded - padded % chunkSize
  }

  /** A buffer as a value: the bytes it holds and its capacity. */
  datatype State = State(held: seq<byte>, size: nat)

  /** Appending: all of the data, or nothing when growth was needed and memory was not available. */
  function AppendTo(s: State, data: seq<byte>, chunkSize: nat, memory: bool): (r: State)
    requires chunkSize > 0
    ensures |s.held| <= |r.held| <= |s.held| + |data|
  {
    var need := |s.held| + |data|;
    if need <= s.size then s.(held := s.held + data)
    else if memory then State(s.held + data, GrownSize(need, chunkSize))
    else s
  }

  /** An append adds a front part of the data and stays within the capacity. */
  lemma AppendKeeps(s: State, data: seq<byte>, chunkSize: nat, memory: bool)
    requires chunkSize > 0
    ensures var r := AppendTo(s, data, chunkSize, memory);
            s.held <= r.held <= s.held + data && (|s.held| <= s.size ==> |r.held| <= r.size)
  {
  }

  /** Deleting from the front: the first n bytes, or nothing when fewer are held. */
  function DeleteFrom(s: State, n: nat): (r: State)
    ensures |r.held| <= |s.held| && s.held[|s.held| - |r.held|..] == r.held && r.size == s.size
  {
    if n > |s.held| then s else s.(held := s.held[n..])
  }

  class IoBuf {
    var buf: array?<byte>
    var size: nat
    var len: nat

    ghost predicate Valid()
      reads this, buf
    {
      && (buf == null ==> size == 0)
      && (buf != null ==> size > 0 && buf.Length == size)
      && len <= size
      && (buf != null ==> forall i :: len <= i < size ==> buf[i] == 0)
    }

    ghost function Contents(): seq<byte>
      reads this, buf
      requires Valid()
    {
      if buf == null then [] else buf[..len]
    }

    ghost function AsState(): State
      reads this, buf
      requires Valid()
    {
      State(Contents(), size)
    }

    constructor ()
      ensures Valid() && AsState() == State([], 0) && buf == null
    {
      buf, size, len := null, 0, 0;
    }

    /**
     `mg_iobuf_resize`; `memory` is whether the allocation succeeds. A nonzero size below the bytes
     held cuts them off but leaves the length as it was: that is exactly when the buffer breaks.
     */
    method Resize(newSize: nat, memory: bool) returns (ok: bool)
      requires Valid()
      modifies this, buf
      ensures buf == old(buf) || buf == null || fresh(buf)
      ensures ok == (newSize == 0 || newSize == old(size) || memory)
      ensures Valid() <==> newSize == 0 || !ok || old(len) <= newSize
      ensures Valid() ==>
                AsState() ==
                if newSize == 0 then State([], 0) else State(old(Contents()), if ok then newSize else old(size))
      ensures !Valid() ==>
                && buf != null && size == newSize == buf.Length < len == old(len)
                && buf[..size] == old(Contents())[..size]
    {
      ok := true;
      if newSize == 0 {
        if buf != null {
          ZeroMem(buf, 0, size);
        }
        buf, len, size := null, 0, 0;
      } else if newSize != size {
        if memory {
          var p := new byte[newSize](_ => 0);
          var kept := if newSize < len then newSize else len;
          if kept > 0 {
            forall i | 0 <= i < kept {
              p[i] := buf[i];
            }
          }
          if buf != null {
            ZeroMem(buf, 0, size);
          }
          buf, size := p, newSize;
        } else {
          ok := false;
        }
      }
    }

    /** `mg_iobuf_append`. */
    method Append(data: seq<byte>, chunkSize: nat, memory: bool) returns (n: nat)
      requires Valid() && chunkSize > 0
      modifies this, buf
      ensures Valid() && (buf == old(buf) || fresh(buf))
      ensures AsState() == AppendTo(old(AsState()), data, chunkSize, memory)
      ensures n == |Contents()| - |old(Contents())|
    {
      hide GrownSize;
      n := |data|;
      var newSize := len + n;
      if newSize > size {
        newSize := GrownSize(newSize, chunkSize);
        var ok := Resize(newSize, memory);
        if newSize != size {
          n := 0;
        }
      }
      if n > 0 {
        Store(data);
      }
    }

    /** `mg_iobuf_append` without data: the gap it opens is zero because every unused cell is. */
    method AppendGap(n0: nat, chunkSize: nat, memory: bool) returns (n: nat)
      requires Valid() && chunkSize > 0
      modifies this, buf
      ensures Valid() && (buf == old(buf) || fresh(buf))
      ensures AsState() == AppendTo(old(AsState()), Zeros(n0), chunkSize, memory)
      ensures n == |Contents()| - |old(Contents())|
    {
      hide GrownSize;
      n := n0;
      var newSize := len + n;
      if newSize > size {
        newSize := GrownSize(newSize, chunkSize);
        var ok := Resize(newSize, memory);
        if newSize != size {
          n := 0;
        }
      }
      Claim(n);
    }

    /** Taking zeroed free space into use. */
    method Claim(n: nat)
      requires Valid() && len + n <= size
      modifies this`len
      ensures Valid() && Contents() == old(Contents()) + Zeros(n)
    {
      ghost var was := Contents();
      len := len + n;
      assert Contents() == was + Zeros(n);
    }

    /** Copying into free space and taking it into use. */
    method Store(data: seq<byte>)
      requires Valid() && data != [] && len + |data| <= size
      modifies this`len, buf
      ensures Valid() && Contents() == old(Contents()) + data
    {
      CopyIn(buf, len, data);
      len := len + |data|;
      assert buf[..len] == buf[..old(len)] + data;
    }

    /**
     The buffer's part of `read_conn`: make room and take as many of the pending bytes as fit. When
     too much is held already or there is no memory for more, nothing is taken: `broken`.
     */
    method Receive(pending: seq<byte>, memory: bool) returns (n: nat, broken: bool)
      requires Valid()
      modifies this, buf
      ensures Valid() && (buf == old(buf) || fresh(buf)) && n <= |pending|
      ensures Contents() == old(Contents()) + pending[..n]
      ensures broken <==> old(len) >= MAX_RECV || (old(size) - old(len) < IO_SIZE && !memory)
      ensures broken ==> n == 0 && size == old(size)
      ensures !broken && pending != [] ==> n > 0
      ensures !broken ==> size == if old(size) - old(len) < 2048 then old(size) + 2048 else old(size)
      ensures !broken ==> n == |pending| || len == size
    {
      n := 0;
      broken := len >= MAX_RECV;
      assert Contents() + pending[..0] == Contents();
      if broken {
        return;
      }
      if size - len < IO_SIZE {
        var ok := Resize(size + IO_SIZE, memory);
        broken := !ok;
        if broken {
          return;
        }
      }
      n := if |pending| <= size - len then |pending| else size - len;
      if n > 0 {
        Store(pending[..n]);
      }
    }

    /** `mg_iobuf_delete`. */
    method Delete(n0: nat) returns (n: nat)
      requires Valid()
      modifies this, buf
      ensures Valid() && buf == old(buf)
      ensures AsState() == DeleteFrom(old(AsState()), n0)
      ensures n == |old(Contents())| - |Contents()|
    {
      n := n0;
      if n > len {
        n := 0;
      }
      if n > 0 {
        RemoveFront(buf, len, n);
      }
      len := len - n;
    }
  }

  method CopyIn(a: array<byte>, at: nat, data: seq<byte>)
    requires at + |data| <= a.Length
    modifies a
    ensures a[..at] == old(a[..at]) && a[at..at + |data|] == data
    ensures forall i :: at + |data| <= i < a.Length ==> a[i] == old(a[i])
  {
    forall i | 0 <= i < |data| {
      a[at + i] := data[i];
    }
  }

  /** The overlapping move of cells n.. to the front. */
  method MoveDown(a: array<byte>, len: nat, n: nat)
    requires n <= len <= a.Length
    modifies a
    ensures forall i :: 0 <= i < len - n ==> a[i] == old(a[i + n])
    ensures forall i :: len - n <= i < a.Length ==> a[i] == old(a[i])
  {
    forall i | 0 <= i < len - n {
      a[i] := a[i + n];
    }
  }

  /** Dropping the first n of `len` cells and zeroing the cells that become free. */
  method RemoveFront(a: array<byte>, len: nat, n: nat)
    requires n <= len <= a.Length && forall i :: len <= i < a.Length ==> a[i] == 0
    modifies a
    ensures a[..len - n] == old(a[..len])[n..]
    ensures forall i :: len - n <= i < a.Length ==> a[i] == 0
  {
    MoveDown(a, len, n);
    ZeroMem(a, len - n, n);
  }

  /** `zeromem` on the n cells from `from`. */
  method ZeroMem(a: array<byte>, from: nat, n: nat)
    requires from + n <= a.Length
    modifies a
    ensures forall i :: 0 <= i < a.Length ==> a[i] == if from <= i < from + n then 0 else old(a[i])
  {
    var left, p := n, from;
    while left > 0
      invariant p + left == from + n && from <= p
      invariant forall i :: 0 <= i < a.Length ==> a[i] == if from <= i < p then 0 else old(a[i])
    {
      a[p] := 0;
      left, p := left - 1, p + 1;
    }
  }

  // ---------- runs ----------

  datatype Op = Append(data: seq<byte>, chunkSize: nat, memory: bool) | Delete(n: nat)

  /** A run of appends and deletes, with the bytes accepted and the bytes deleted so far. */
  datatype Run = Run(state: State, accepted: seq<byte>, deleted: seq<byte>)

  /** As much of the data as the growth of the buffer says was taken, counted from its front. */
  function Accepted(before: State, after: State, data: seq<byte>): seq<byte>
    requires |before.held| <= |after.held| <= |before.held| + |data|
  {
    data[..|after.held| - |before.held|]
  }

  function Step(r: Run, op: Op): Run
    requires op.Append? ==> op.chunkSize > 0
  {
    match op
    case Append(data, chunkSize, memory) =>
      var after := AppendTo(r.state, data, chunkSize, memory);
      Run(after, r.accepted + Accepted(r.state, after, data), r.deleted)
    case Delete(n) =>
      var after := DeleteFrom(r.state, n);
      Run(after, r.accepted, r.deleted + r.state.held[..|r.state.held| - |after.held|])
  }

  function Steps(ops: seq<Op>): Run
    requires forall op :: op in ops && op.Append? ==> op.chunkSize > 0
  {
    if ops == [] then Run(State([], 0), [], [])
    else Step(Steps(ops[..|ops| - 1]), ops[|ops| - 1])
  }

  lemma StepLosesNothing(r: Run, op: Op)
    requires op.Append? ==> op.chunkSize > 0
    requires r.deleted + r.state.held == r.accepted && |r.state.held| <= r.state.size
    ensures Step(r, op).deleted + Step(r, op).state.held == Step(r, op).accepted
    ensures |Step(r, op).state.held| <= Step(r, op).state.size
  {
    hide AppendTo, DeleteFrom;
    var held, held' := r.state.held, Step(r, op).state.held;
    match op
    case Append(data, chunkSize, memory) =>
      AppendKeeps(r.state, data, chunkSize, memory);
      Taken(r.deleted, held, held', data);
    case Delete(n) => Dropped(r.deleted, held, held');
  }

  lemma Taken(deleted: seq<byte>, held: seq<byte>, held': seq<byte>, data: seq<byte>)
    requires held <= held' <= held + data
    ensures deleted + held' == deleted + held + data[..|held'| - |held|]
  {
    assert held' == (held + data)[..|held'|] == held + data[..|held'| - |held|];
  }

  lemma Dropped(deleted: seq<byte>, held: seq<byte>, held': seq<byte>)
    requires |held'| <= |held| && held[|held| - |held'|..] == held'
    ensures deleted + held[..|held| - |held'|] + held' == deleted + held
  {
    assert held == held[..|held| - |held'|] + held';
  }

  /**
   Over any run, whatever allocations fail, no byte is lost, invented or reordered, and the buffer
   never holds more than its capacity.
   */
  lemma {:induction false} NothingLost(ops: seq<Op>)
    requires forall op :: op in ops && op.Append? ==> op.chunkSize > 0
    ensures Steps(ops).deleted + Steps(ops).state.held == Steps(ops).accepted
    ensures |Steps(ops).state.held| <= Steps(ops).state.size
  {
    if ops != [] {
      NothingLost(ops[..|ops| - 1]);
      StepLosesNothing(Steps(ops[..|ops| - 1]), ops[|ops| - 1]);
    }
  }

  // ---------- the cases of an append and a delete ----------

  /** Data that fits is taken whatever memory there is; other data needs memory, and is taken whole or not at all. */
  lemma AppendCases(held: seq<byte>, size: nat, data: seq<byte>, chunkSize: nat, memory: bool)
    requires chunkSize > 0
    ensures var r := AppendTo(State(held, size), data, chunkSize, memory);
            && (|held| + |data| <= size ==> r == State(held + data, size))
            && (|held| + |data| > size && !memory ==> r == State(held, size))
            && (|held| + |data| > size && memory ==>
                  r.held == held + data && |r.held| < r.size <= |r.held| + chunkSize && r.size % chunkSize == 0)
  {
    hide GrownSize;
  }

  /** As many bytes as asked for go from the front, or none. */
  lemma DeleteCases(held: seq<byte>, size: nat, n: nat)
    ensures DeleteFrom(State(held, size), n) == State(if n <= |held| then held[n..] else held, size)
  {
  }

  /** The limits of a connection's buffers. */
  lemma Limits()
    ensures IO_SIZE == 2048 && MAX_RECV == 3145728
  {
  }
}
