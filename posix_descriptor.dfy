/**
 * The POSIX descriptor of onposix: blocking full-transfer read and write over
 * an OS handle, and the one-shot worker that runs one such transfer and hands
 * its result to a completion handler.
 *
 * The OS handle is not modelled; each transfer is given the script of answers
 * the handle returns (see TransferLoop) and reports the calls it issued.
 * A C++ exception is the `Threw` outcome: it ends the operation at once and
 * nothing after the throwing call runs.  The descriptor's mutex is the flag
 * `locked`, and the worker's `run()` is an ordinary call with no thread.
 */
module Onposix {
  import opened TransferLoop

  /** The `std::runtime_error` exceptions the descriptor raises, by their
      messages: "Read error", "Write error" and "Async error". */
  datatype Fault = ReadError | WriteError | AsyncError

  /** How an operation ended: it returned a value, or it raised an
      exception. */
  datatype Outcome<T> = Returned(value: T) | Threw(fault: Fault)

  /** The value the buffer-checked `read` and `write` return when the buffer
      cannot hold the request. */
  const SizeFailure := -1

  /** What a low-level primitive ends with, given its run of the loop. */
  function Ended(t: Trace, fault: Fault): Outcome<int> {
    if t.faulted then Threw(fault) else Returned(t.moved)
  }

  /** The size guard of the buffer-checked `read` and `write`: an empty
      buffer, or a request larger than the buffer. */
  predicate Undersized(capacity: nat, size: nat) {
    capacity == 0 || size > capacity
  }

  /** A managed buffer: its capacity is the length of its byte array. */
  class Buffer {
    const bytes: array<byte>

    constructor (capacity: nat)
      ensures Size() == capacity && fresh(bytes)
    {
      bytes := new byte[capacity];
    }

    /** `getSize()` */
    function Size(): nat {
      bytes.Length
    }
  }

  /** The region `buf`, which held `before`, now holds the first `m` bytes
      of the stream `input` followed by the rest of what it held. */
  ghost predicate Holds(buf: array<byte>, before: seq<byte>, input: seq<byte>, m: nat)
    reads buf
  {
    m <= buf.Length == |before| && m <= |input| &&
    forall k :: 0 <= k < buf.Length ==> buf[k] == if k < m then input[k] else before[k]
  }

  /** `Holds`, stated on the region's contents as a sequence. */
  lemma HoldsIs(buf: array<byte>, before: seq<byte>, input: seq<byte>, m: nat)
    requires Holds(buf, before, input, m)
    ensures buf[..] == input[..m] + before[m..]
  {
    var whole := input[..m] + before[m..];
    assert |whole| == buf.Length;
    forall k | 0 <= k < buf.Length
      ensures buf[..][k] == whole[k]
    {
      if k < m {
        assert whole[k] == input[..m][k];
      } else {
        assert whole[k] == before[m..][k - m];
      }
    }
  }

  /** The kernel's copy of a `read()` that returned bytes: a region holding
      the first `from` bytes of the stream receives positions `from` up to
      `to` of it, and then holds the first `to`. */
  method Deliver(buf: array<byte>, input: seq<byte>, ghost before: seq<byte>, from: nat, to: nat)
    requires from <= to <= buf.Length && to <= |input| && Holds(buf, before, input, from)
    modifies buf
    ensures Holds(buf, before, input, to)
  {
    forall k | from <= k < to {
      buf[k] := input[k];
    }
  }

  /** A prefix of `s` up to `a`, extended by the bytes from `a` up to `b`,
      is the prefix up to `b`. */
  lemma Extend(s: seq<byte>, prefix: seq<byte>, a: nat, b: nat)
    requires a <= b <= |s| && prefix == s[..a]
    ensures prefix + s[a..b] == s[..b]
  {
  }

  class PosixDescriptor {
    /** Whether the descriptor's mutex is held. */
    var locked: bool

    constructor ()
      ensures !locked
    {
      locked := false;
    }

    /** `__read`: read `size` bytes into `buf`, one `read()` call after the
        other, each for the bytes still missing, until all are there or the
        OS reports end-of-file; an error answer raises "Read error".  The
        bytes come, in order, from the descriptor's `input`. */
    method LowRead(buf: array<byte>, size: nat, rets: seq<int>, input: seq<byte>)
      returns (out: Outcome<int>, calls: seq<Call>)
      requires size <= buf.Length
      requires Answers(rets, size, 0) && Transfer(rets, size, locked).moved <= |input|
      modifies buf
      ensures var t := Transfer(rets, size, locked);
        calls == t.calls && out == Ended(t, ReadError) &&
        buf[..] == input[..t.moved] + old(buf[..])[t.moved..]
      ensures out.Returned? ==> 0 <= out.value <= size
    {
      var held := locked;
      ghost var whole := Transfer(rets, size, held);
      ghost var before := buf[..];
      var remaining: nat := size;
      var i: nat := 0;
      calls := [];
      while remaining > 0
        invariant remaining <= size && i == |calls|
        invariant Resumes(whole, calls, rets, size, remaining, i, held)
        invariant Holds(buf, before, input, size - remaining)
        invariant locked == held
        decreases remaining
      {
        // ::read(fd_, buffer + (size - remaining), remaining)
        var offset := size - remaining;
        var ret := rets[i];
        Step(whole, calls, rets, size, remaining, i, held);
        calls := calls + [Call(offset, remaining, held)];
        if ret == 0 {
          break;
        } else if ret < 0 {
          HoldsIs(buf, before, input, offset);
          out := Threw(ReadError);
          return;
        }
        Deliver(buf, input, before, offset, offset + ret);
        remaining := remaining - ret;
        i := i + 1;
      }
      if remaining == 0 {
        Done(whole, calls, rets, size, i, held);
      }
      HoldsIs(buf, before, input, size - remaining);
      out := Returned(size - remaining);
    }

    /** `__write`: write the first `size` bytes of `src`, one `write()` call
        after the other, each for the bytes not yet accepted, until all are
        accepted or the OS accepts nothing; an error answer raises "Write
        error".  `sent` is what the OS accepted, in order. */
    method LowWrite(src: seq<byte>, size: nat, rets: seq<int>)
      returns (out: Outcome<int>, calls: seq<Call>, sent: seq<byte>)
      requires size <= |src|
      requires Answers(rets, size, 0)
      ensures var t := Transfer(rets, size, locked);
        calls == t.calls && out == Ended(t, WriteError) && sent == src[..t.moved]
      ensures out.Returned? ==> 0 <= out.value <= size
    {
      var held := locked;
      ghost var whole := Transfer(rets, size, held);
      var remaining: nat := size;
      var i: nat := 0;
      calls, sent := [], [];
      while remaining > 0
        invariant remaining <= size && i == |calls|
        invariant Resumes(whole, calls, rets, size, remaining, i, held)
        invariant sent == src[..size - remaining]
        invariant |sent| == size - remaining
        decreases remaining
      {
        // ::write(fd_, buffer + (size - remaining), remaining)
        var offset := size - remaining;
        var ret := rets[i];
        Step(whole, calls, rets, size, remaining, i, held);
        calls := calls + [Call(offset, remaining, held)];
        if ret == 0 {
          break;
        } else if ret < 0 {
          out := Threw(WriteError);
          return;
        }
        Extend(src, sent, offset, offset + ret);
        sent := sent + src[offset..offset + ret];
        remaining := remaining - ret;
        i := i + 1;
      }
      if remaining == 0 {
        Done(whole, calls, rets, size, i, held);
      }
      out := Returned(size - remaining);
    }

    /** `read(Buffer*, size)`: refuse a request the buffer cannot hold;
        otherwise run `__read` into the buffer with the mutex held, and
        release it on a normal return (a raised fault leaves it held). */
    method ReadBuffer(b: Buffer, size: nat, rets: seq<int>, input: seq<byte>)
      returns (out: Outcome<int>, calls: seq<Call>)
      requires !Undersized(b.Size(), size) ==>
        !locked && Answers(rets, size, 0) && Transfer(rets, size, true).moved <= |input|
      modifies this, b.bytes
      ensures Undersized(b.Size(), size) ==>
        out == Returned(SizeFailure) && calls == [] && unchanged(this, b.bytes)
      ensures !Undersized(b.Size(), size) ==>
        var t := Transfer(rets, size, true);
        calls == t.calls && out == Ended(t, ReadError) && locked == t.faulted &&
        b.bytes[..] == input[..t.moved] + old(b.bytes[..])[t.moved..]
    {
      if Undersized(b.Size(), size) {
        return Returned(SizeFailure), [];
      }
      locked := true;
      out, calls := LowRead(b.bytes, size, rets, input);
      if out.Threw? {
        return;
      }
      locked := false;
    }

    /** `read(void*, size)`: run `__read` into the caller's region with the
        mutex held; the region must hold `size` bytes. */
    method ReadPointer(p: array<byte>, size: nat, rets: seq<int>, input: seq<byte>)
      returns (out: Outcome<int>, calls: seq<Call>)
      requires size <= p.Length
      requires !locked && Answers(rets, size, 0) && Transfer(rets, size, true).moved <= |input|
      modifies this, p
      ensures var t := Transfer(rets, size, true);
        calls == t.calls && out == Ended(t, ReadError) && locked == t.faulted &&
        p[..] == input[..t.moved] + old(p[..])[t.moved..]
    {
      locked := true;
      out, calls := LowRead(p, size, rets, input);
      if out.Threw? {
        return;
      }
      locked := false;
    }

    /** `write(Buffer*, size)`: refuse a request the buffer cannot hold;
        otherwise run `__write` from the buffer.  The mutex is not touched:
        each call runs in whatever lock state the descriptor is in. */
    method WriteBuffer(b: Buffer, size: nat, rets: seq<int>)
      returns (out: Outcome<int>, calls: seq<Call>, sent: seq<byte>)
      requires !Undersized(b.Size(), size) ==> Answers(rets, size, 0)
      ensures Undersized(b.Size(), size) ==>
        out == Returned(SizeFailure) && calls == [] && sent == []
      ensures !Undersized(b.Size(), size) ==>
        var t := Transfer(rets, size, locked);
        calls == t.calls && out == Ended(t, WriteError) && sent == b.bytes[..t.moved]
    {
      if Undersized(b.Size(), size) {
        return Returned(SizeFailure), [], [];
      }
      out, calls, sent := LowWrite(b.bytes[..], size, rets);
    }

    /** `write(const void*, size)`: run `__write` from the caller's region,
        which must hold `size` bytes. */
    method WritePointer(p: array<byte>, size: nat, rets: seq<int>)
      returns (out: Outcome<int>, calls: seq<Call>, sent: seq<byte>)
      requires size <= p.Length
      requires Answers(rets, size, 0)
      ensures var t := Transfer(rets, size, locked);
        calls == t.calls && out == Ended(t, WriteError) && sent == p[..t.moved]
    {
      out, calls, sent := LowWrite(p[..], size, rets);
    }

    /** `write(const std::string&)`: run `__write` over all the bytes of `s`. */
    method WriteString(s: seq<byte>, rets: seq<int>)
      returns (out: Outcome<int>, calls: seq<Call>, sent: seq<byte>)
      requires Answers(rets, |s|, 0)
      ensures var t := Transfer(rets, |s|, locked);
        calls == t.calls && out == Ended(t, WriteError) && sent == s[..t.moved]
    {
      out, calls, sent := LowWrite(s, |s|, rets);
    }
  }

  /** The operation an `AsyncThread` is armed with (`NONE` when idle). */
  datatype Operation = NoOperation | ReadBuf | ReadVoid | WriteBuf | WriteVoid {
    predicate Reads() {
      ReadBuf? || ReadVoid?
    }
    predicate OnBuffer() {
      ReadBuf? || WriteBuf?
    }
  }

  /** A completion handler, identified by the function it points to. */
  type Handler = nat

  /** One invocation of a completion handler: which handler, with which
      target and count, and whether the descriptor's mutex was held then. */
  datatype Invocation =
    | BufferHandlerCall(handler: Handler, buffer: Buffer, count: int, lockHeld: bool)
    | VoidHandlerCall(handler: Handler, region: array<byte>, count: int, lockHeld: bool)

  /** `PosixDescriptor::AsyncThread`: the worker of one asynchronous read or
      write on `des`.  `invocations` records every handler call, in order. */
  class AsyncThread {
    const des: PosixDescriptor
    var size: nat
    var buffHandler: Handler
    var voidHandler: Handler
    var buffBuffer: Buffer?
    var voidBuffer: array?<byte>
    var operation: Operation
    var invocations: seq<Invocation>

    constructor (des: PosixDescriptor)
      ensures this.des == des && operation == NoOperation && invocations == []
      ensures buffBuffer == null && voidBuffer == null
      ensures Ready()
    {
      this.des := des;
      size, buffHandler, voidHandler := 0, 0, 0;
      buffBuffer, voidBuffer := null, null;
      operation := NoOperation;
      invocations := [];
    }

    /** The armed operation has a target that holds `size` bytes. */
    ghost predicate Ready()
      reads this
    {
      match operation
      case NoOperation => true
      case ReadBuf | WriteBuf => buffBuffer != null && size <= buffBuffer.Size()
      case ReadVoid | WriteVoid => voidBuffer != null && size <= voidBuffer.Length
    }

    /** The region an operation of kind `op` transfers to or from. */
    function Target(op: Operation): array?<byte>
      reads this
    {
      if op.OnBuffer() then (if buffBuffer == null then null else buffBuffer.bytes)
      else voidBuffer
    }

    /** The regions `run()` may fill. */
    function Targets(): set<array<byte>>
      reads this
    {
      (if buffBuffer == null then {} else {buffBuffer.bytes}) +
      (if voidBuffer == null then {} else {voidBuffer})
    }

    /** `startAsyncOperation(bool, void (*)(Buffer*, size_t), Buffer*, size_t)`:
        record the request on a managed buffer and arm a buffer read or
        write.  The buffer is not checked: it must hold `size` bytes. */
    method StartBufferOperation(readOperation: bool, handler: Handler, buff: Buffer, size: nat)
      requires size <= buff.Size()
      modifies this
      ensures this.size == size && buffHandler == handler && buffBuffer == buff
      ensures operation == if readOperation then ReadBuf else WriteBuf
      ensures voidHandler == old(voidHandler) && voidBuffer == old(voidBuffer)
      ensures invocations == old(invocations)
      ensures Ready()
    {
      this.size := size;
      buffHandler := handler;
      buffBuffer := buff;
      if readOperation {
        operation := ReadBuf;
      } else {
        operation := WriteBuf;
      }
    }

    /** `startAsyncOperation(bool, void (*)(void*, size_t), void*, size_t)`:
        record the request on a raw region and arm a raw read or write. */
    method StartVoidOperation(readOperation: bool, handler: Handler, buff: array<byte>, size: nat)
      requires size <= buff.Length
      modifies this
      ensures this.size == size && voidHandler == handler && voidBuffer == buff
      ensures operation == if readOperation then ReadVoid else WriteVoid
      ensures buffHandler == old(buffHandler) && buffBuffer == old(buffBuffer)
      ensures invocations == old(invocations)
      ensures Ready()
    {
      this.size := size;
      voidHandler := handler;
      voidBuffer := buff;
      if readOperation {
        operation := ReadVoid;
      } else {
        operation := WriteVoid;
      }
    }

    /** `run()`: with no operation armed, raise "Async error" and touch
        nothing.  Otherwise run the matching low-level primitive on the
        recorded target and size, release the mutex the issuer acquired,
        call the matching handler once with the target and the count, and
        return to `NoOperation`.  A fault in the transfer escapes before the
        release: the mutex stays held, no handler runs and the operation
        stays armed. */
    method Run(rets: seq<int>, input: seq<byte>)
      returns (out: Outcome<()>, calls: seq<Call>, sent: seq<byte>)
      requires Ready()
      requires operation != NoOperation ==> des.locked && Answers(rets, size, 0)
      requires operation.Reads() ==> Transfer(rets, size, true).moved <= |input|
      modifies this, des, Targets()
      ensures size == old(size) && buffHandler == old(buffHandler) && voidHandler == old(voidHandler)
      ensures buffBuffer == old(buffBuffer) && voidBuffer == old(voidBuffer)
      ensures old(operation) == NoOperation ==>
        out == Threw(AsyncError) && calls == [] && sent == [] &&
        operation == NoOperation && invocations == old(invocations) &&
        unchanged(des) && unchanged(Targets())
      ensures old(operation) != NoOperation ==>
        var op := old(operation);
        var t := Transfer(rets, size, true);
        var target := Target(op);
        target != null && calls == t.calls &&
        (t.faulted ==>
           out == Threw(if op.Reads() then ReadError else WriteError) &&
           des.locked && operation == op && invocations == old(invocations)) &&
        (!t.faulted ==>
           out == Returned(()) && !des.locked && operation == NoOperation &&
           invocations == old(invocations) +
             [if op.OnBuffer() then BufferHandlerCall(buffHandler, buffBuffer, t.moved, false)
              else VoidHandlerCall(voidHandler, voidBuffer, t.moved, false)]) &&
        (op.Reads() ==>
           sent == [] &&
           target[..] == input[..t.moved] + old(target[..])[t.moved..]) &&
        (!op.Reads() ==> sent == target[..t.moved] && unchanged(Targets()))
      ensures old(operation).Reads() ==>
        forall a :: a in old(Targets()) && a != Target(old(operation)) ==> a[..] == old(a[..])
      ensures Ready()
    {
      var r: Outcome<int>;
      sent := [];
      if operation == ReadBuf {
        r, calls := des.LowRead(buffBuffer.bytes, size, rets, input);
      } else if operation == ReadVoid {
        r, calls := des.LowRead(voidBuffer, size, rets, input);
      } else if operation == WriteBuf {
        r, calls, sent := des.LowWrite(buffBuffer.bytes[..], size, rets);
      } else if operation == WriteVoid {
        r, calls, sent := des.LowWrite(voidBuffer[..], size, rets);
      } else {
        return Threw(AsyncError), [], [];
      }
      if r.Threw? {
        out := Threw(r.fault);
        return;
      }
      des.locked := false;
      if operation == ReadBuf || operation == WriteBuf {
        invocations := invocations + [BufferHandlerCall(buffHandler, buffBuffer, r.value, des.locked)];
      } else {
        invocations := invocations + [VoidHandlerCall(voidHandler, voidBuffer, r.value, des.locked)];
      }
      operation := NoOperation;
      out := Returned(());
    }
  }
}
