# onposix `PosixDescriptor` in Dafny

This project models the core of onposix's `PosixDescriptor`
(`src/PosixDescriptor.cpp`). It covers:

- the blocking full-transfer primitives `__read` and `__write`;
- the public `read` and `write` overloads built on them;
- the one-shot asynchronous worker `PosixDescriptor::AsyncThread`, through
  `startAsyncOperation` and `run()`.

The model has two modules.

- `TransferLoop` (`transfer_loop.dfy`) states the loop that both primitives
  run. It is a function of the operating system's answers.
  - `rets[i]` is what the i-th `read()`/`write()` call returns: positive for
    bytes moved, 0 for end-of-file (or "cannot write more"), negative for an
    error.
  - `Answers` is the POSIX.1-2017 promise the loop relies on when it subtracts
    the result from `remaining`: a call never returns more than it was asked
    for.
  - `Transfer` gives the trace of a run: the calls issued (offset, length,
    and whether the descriptor's mutex was held), the count moved, and
    whether it ended in a fault.
  - The lemmas prove what the loop promises about that trace.
- `Onposix` (`posix_descriptor.dfy`) holds the classes.
  - `PosixDescriptor` has its mutex as the field `locked`.
  - `Buffer` stands for the managed buffer.
  - `AsyncThread` has the fields `size_`, the two handlers, the two targets
    and `async_operation_`. A log `invocations` records every handler call.
  - Each method is the source function written imperatively, with the same
    loop, branches and constants. The methods that transfer bytes (`LowRead`,
    `LowWrite`, the `read` and `write` overloads and `Run`) are proved
    against `Transfer`; the `Start...Operation` methods state the fields they
    record.
  - A read takes its bytes from `input`: the stream from the descriptor's
    current position, supplied with each call. After a read, the region holds
    `input[..moved]` followed by what it held before. The file position is
    not state of the model, so successive reads do not consume the stream.
  - A write reports in `sent` the bytes the OS accepted.
  - A C++ exception is the outcome `Threw(fault)`. The faults `ReadError`,
    `WriteError` and `AsyncError` stand for the `std::runtime_error` texts
    "Read error", "Write error" and "Async error".

Where the comments in the source and the code disagree, the model follows
the code:

- The doc comment on `__write` (src/PosixDescriptor.cpp:200) says that a 0
  result raises. The code breaks out of the loop and returns the short count
  (lines 209-211), and so does the model.
- The wrappers' comments promise -1 "in case of error". In the code, an OS
  error raises; only the size guard returns -1.
- `read` unlocks only on a normal return (lines 165-167, 182-184). When
  `__read` raises, the mutex is left held. The model states this:
  `locked == t.faulted`.

## Model

| member | source | states |
|---|---|---|
| TransferLoop.Loop | src/PosixDescriptor.cpp:133-146 | a run of the loop from `remaining` bytes left ends having moved between `size - remaining` and `size` bytes, and consumes no more answers than the script holds |
| TransferLoop.LoopMoved | src/PosixDescriptor.cpp:133-146 | by induction on the bytes left, the count a run ends with is the sum of the positive answers it consumed |
| TransferLoop.LoopCallAt | src/PosixDescriptor.cpp:134-136 | by induction, the call a run issues after `j` more answers is at the offset the answers so far delivered and asks for the rest of the region |
| TransferLoop.LoopStops | src/PosixDescriptor.cpp:134-144 | by induction, every answer a run consumes but the last is positive; the run faults exactly when the last is negative and ends short exactly when the last is 0 or negative |
| TransferLoop.TransferCount | src/PosixDescriptor.cpp:133-146 | the count `__read`/`__write` return is in `[0, size]`, equals the sum of the positive answers consumed, and no more calls are issued than there are answers |
| TransferLoop.TransferCallAt | src/PosixDescriptor.cpp:135-136 | call `j` is issued at offset `size - remaining` (the bytes delivered before it) with length `remaining`, under the lock state of the run |
| TransferLoop.TransferContiguous | src/PosixDescriptor.cpp:134-144 | the first call is at offset 0; every call asks for a non-empty rest of the region ending at `size`; each call starts where the previous call's bytes ended, so chunks are contiguous, in order and disjoint |
| TransferLoop.TransferStops | src/PosixDescriptor.cpp:134-139 | `size == 0` issues no call; the loop ends right after the first answer that is 0 or negative; the count is short exactly when it ended that way, and short without a fault only after a 0 |
| TransferLoop.TransferFault | src/PosixDescriptor.cpp:140-143 | a run faults exactly when the last answer consumed is negative; no call follows it, and every earlier answer was positive |
| TransferLoop.FullTransfer | src/PosixDescriptor.cpp:134-146 | when no answer is 0 or negative, all `size` bytes are moved and no fault is raised |
| TransferLoop.LoopIgnoresLock | src/PosixDescriptor.cpp:131-147 | by induction, whether the mutex is held changes nothing in a run but the stamp on each call |
| TransferLoop.TransferIgnoresLock | src/PosixDescriptor.cpp:96-103 | a transfer under the issuer's lock (the asynchronous worker) moves the same count through the same calls as one without it |
| Onposix.Deliver | src/PosixDescriptor.cpp:135-136 | the kernel's copy for one `read()`: the region, holding the first `from` bytes of the stream, receives the stream's bytes `from` up to `to` and then holds the first `to` |
| Onposix.PosixDescriptor.LowRead | src/PosixDescriptor.cpp:131-147 | `__read` issues exactly the calls of `Transfer`; it returns the count in `[0, size]` or raises "Read error" when an answer is negative; the region then holds the first `moved` bytes of the stream, and the rest of it is unchanged |
| Onposix.PosixDescriptor.LowWrite | src/PosixDescriptor.cpp:203-219 | `__write` issues exactly the calls of `Transfer`; it returns the count in `[0, size]` or raises "Write error"; the OS was handed exactly the first `moved` bytes of the source, in order |
| Onposix.PosixDescriptor.ReadBuffer | src/PosixDescriptor.cpp:159-169 | an empty buffer or an oversized request returns -1 with no call and nothing changed; otherwise the loop runs with the mutex held for every call, the buffer is filled as by `__read`, and the mutex is released exactly when no fault was raised |
| Onposix.PosixDescriptor.ReadPointer | src/PosixDescriptor.cpp:180-186 | `__read` into the caller's region with the mutex held for every call; the mutex is released exactly when no fault was raised |
| Onposix.PosixDescriptor.WriteBuffer | src/PosixDescriptor.cpp:230-238 | an empty buffer or an oversized request returns -1 with no call; otherwise `__write` from the buffer's bytes, in the descriptor's current lock state, which it does not change |
| Onposix.PosixDescriptor.WritePointer | src/PosixDescriptor.cpp:248-251 | `__write` from the caller's region, without touching the mutex |
| Onposix.PosixDescriptor.WriteString | src/PosixDescriptor.cpp:261-264 | `__write` over all `s.size()` bytes of the string, without touching the mutex |
| Onposix.AsyncThread.StartBufferOperation | src/PosixDescriptor.cpp:37-51 | records size, handler and buffer, arms `READ_BUFFER` or `WRITE_BUFFER` from the read flag, and leaves the raw-region fields and the handler log alone |
| Onposix.AsyncThread.StartVoidOperation | src/PosixDescriptor.cpp:67-81 | records size, handler and region, arms `READ_VOID` or `WRITE_VOID` from the read flag, and leaves the buffer fields and the handler log alone |
| Onposix.AsyncThread.Run | src/PosixDescriptor.cpp:92-116 | with nothing armed, raises "Async error" with no call and nothing changed. Otherwise it runs the matching primitive on the recorded target and size with the issuer's lock held. On success it releases the lock, appends exactly one call of the matching handler (target, count, lock released) and resets to `NONE`. A fault escapes with the lock held, no handler call, and the operation still armed. A read changes no recorded region but its target, and the worker stays ready to be re-armed |

## Left out

- The `::read`/`::write` system calls and the file descriptor are replaced by the scripted answers `rets` and, for reads, the stream `input`. The model requires the answers to respect the POSIX bound and the stream to hold the bytes delivered.
- Thread creation (`start()`, src/PosixDescriptor.cpp:50 and 80) and blocking mutex semantics are not modelled. The mutex is a flag, and `run()` is an ordinary call.
- Onposix.PosixDescriptor.ReadBuffer: requires the mutex to be free, because a sequential model cannot wait for another holder to release it.
- Onposix.PosixDescriptor.ReadPointer: requires the mutex to be free, for the same reason.
- Onposix.AsyncThread.Run: requires the mutex to be held when an operation is armed. This is the issuer's side of the asynchronous contract, which the source does not check.
- Onposix.PosixDescriptor.ReadPointer: requires the region to hold `size` bytes. The C++ trusts the caller, and a shorter region is undefined behaviour there.
- Onposix.PosixDescriptor.WritePointer: requires the region to hold `size` bytes, for the same reason.
- Onposix.AsyncThread.StartBufferOperation: requires the buffer to hold `size` bytes. The source does not check this, and `run()` would overrun a smaller buffer.
- Onposix.AsyncThread.StartVoidOperation: requires the region to hold `size` bytes, for the same reason.
- `DEBUG` logging (src/PosixDescriptor.cpp:105, 162, 233) has no behaviour to state.
- The `return -1` after each `throw` (src/PosixDescriptor.cpp:142, 214) cannot run, and the model has no such branch. `LowRead` and `LowWrite` state that a returned count lies in `[0, size]`.
- Counts are unbounded naturals. The narrowing of the `size_t` count to the `int` return value is not modelled.
- `Buffer` is only a capacity and a byte array (`getSize()`, `getBuffer()`). The rest of its implementation is not part of this model.
- The constructors of `PosixDescriptor` and `AsyncThread` are declared in headers that are not part of this model. The Dafny constructors only set the initial state.
- include/StreamSocketClientDescriptor.hpp only declares socket-opening constructors, and is not part of this model.
- Every write path (`WriteBuffer`, `WritePointer`, `WriteString` and the two write branches of `Run`) hands `__write` a snapshot of its source region as a sequence. Changes to that region while the loop runs are not captured.
- Completion handlers are identities, and each invocation is logged. What a handler's own code does is not modelled.
