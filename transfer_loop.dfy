/**
 * The full-transfer loop that both low-level primitives of a POSIX descriptor
 * run (`__read` and `__write`), stated as a function of the operating system's
 * answers to the calls it issues.
 *
 * The operating system is a scripted oracle: `rets[i]` is what the i-th
 * `read()`/`write()` call returns.  A read also takes its bytes from the
 * descriptor's `input` stream: consecutive calls deliver consecutive bytes
 * of it, so after a run the caller's region starts with `input[..moved]`.
 * POSIX.1-2017 (IEEE Std 1003.1-2017, System Interfaces, read() and write())
 * promises that a call returns at most the byte count it was asked for, 0
 * when nothing more can be transferred (end-of-file for a read), and -1 on
 * error; `Answers` is that promise, made for every call the loop actually
 * issues.
 */
module TransferLoop {

  newtype byte = x: int | 0 <= x < 256

  /** One OS transfer call as issued: the offset into the caller's region, the
      byte count requested, and whether the descriptor lock was held. */
  datatype Call = Call(offset: nat, length: nat, lockHeld: bool)

  /** What a run of the loop did: the calls it issued in order, the bytes it
      moved (size - remaining when it stopped), and whether it ended by
      raising a fault. */
  datatype Trace = Trace(calls: seq<Call>, moved: nat, faulted: bool)

  /** `prefix` issued before the rest of a run described by `t`. */
  function Then(prefix: seq<Call>, t: Trace): Trace {
    Trace(prefix + t.calls, t.moved, t.faulted)
  }

  /** The script answers, from call `i` on, every call a loop with `remaining`
      bytes left will issue, each with at most the count requested. */
  predicate Answers(rets: seq<int>, remaining: nat, i: nat)
    decreases remaining
  {
    i <= |rets| &&
    (remaining > 0 ==>
       i < |rets| && rets[i] <= remaining &&
       (rets[i] > 0 ==> Answers(rets, remaining - rets[i], i + 1)))
  }

  /** The loop from the point where `remaining` of `size` bytes are left and
      `i` answers have been consumed; `held` is the lock state throughout. */
  function Loop(rets: seq<int>, size: nat, remaining: nat, i: nat, held: bool): (t: Trace)
    requires remaining <= size
    requires Answers(rets, remaining, i)
    ensures size - remaining <= t.moved <= size
    ensures i + |t.calls| <= |rets|
    decreases remaining
  {
    if remaining == 0 then Trace([], size, false)
    else
      var call := Call(size - remaining, remaining, held);
      if rets[i] == 0 then Trace([call], size - remaining, false)
      else if rets[i] < 0 then Trace([call], size - remaining, true)
      else Then([call], Loop(rets, size, remaining - rets[i], i + 1, held))
  }

  /** One more iteration of a run that the loop is part-way through: a
      positive answer moves the run on to the next call. */
  lemma Advance(whole: Trace, calls: seq<Call>, rets: seq<int>, size: nat, remaining: nat, i: nat, held: bool)
    requires 0 < remaining <= size && Answers(rets, remaining, i) && rets[i] > 0
    requires whole == Then(calls, Loop(rets, size, remaining, i, held))
    ensures Answers(rets, remaining - rets[i], i + 1)
    ensures whole == Then(calls + [Call(size - remaining, remaining, held)],
                          Loop(rets, size, remaining - rets[i], i + 1, held))
  {
    var rest := Loop(rets, size, remaining - rets[i], i + 1, held);
    assert calls + ([Call(size - remaining, remaining, held)] + rest.calls)
        == (calls + [Call(size - remaining, remaining, held)]) + rest.calls;
  }

  /** Part-way through a run of the loop: `calls` have been issued, `i`
      answers consumed and `remaining` of `size` bytes are left, and the run
      ends as `whole`. */
  ghost predicate Resumes(whole: Trace, calls: seq<Call>, rets: seq<int>, size: nat, remaining: nat, i: nat, held: bool) {
    remaining <= size && Answers(rets, remaining, i) &&
    whole == Then(calls, Loop(rets, size, remaining, i, held))
  }

  /** One iteration of a run the loop is part-way through: the call for the
      bytes left is issued; an answer of 0 or less ends the run after it,
      faulting when negative, and a positive answer moves the run on. */
  lemma Step(whole: Trace, calls: seq<Call>, rets: seq<int>, size: nat, remaining: nat, i: nat, held: bool)
    requires 0 < remaining && Resumes(whole, calls, rets, size, remaining, i, held)
    ensures i < |rets| && rets[i] <= remaining
    ensures rets[i] <= 0 ==>
      whole == Trace(calls + [Call(size - remaining, remaining, held)], size - remaining, rets[i] < 0)
    ensures rets[i] > 0 ==>
      size - remaining + rets[i] <= whole.moved &&
      Resumes(whole, calls + [Call(size - remaining, remaining, held)], rets, size, remaining - rets[i], i + 1, held)
  {
    if rets[i] > 0 {
      Advance(whole, calls, rets, size, remaining, i, held);
    }
  }

  /** A run with no bytes left issues no more calls and moves the whole
      region. */
  lemma Done(whole: Trace, calls: seq<Call>, rets: seq<int>, size: nat, i: nat, held: bool)
    requires Resumes(whole, calls, rets, size, 0, i, held)
    ensures whole == Trace(calls, size, false)
  {
    assert calls + [] == calls;
  }

  /** A whole transfer of `size` bytes. */
  function Transfer(rets: seq<int>, size: nat, held: bool): Trace
    requires Answers(rets, size, 0)
  {
    Loop(rets, size, size, 0, held)
  }

  /** The sum of the positive answers among the first `k`. */
  function Delivered(rets: seq<int>, k: nat): nat
    requires k <= |rets|
  {
    if k == 0 then 0
    else Delivered(rets, k - 1) + (if rets[k - 1] > 0 then rets[k - 1] else 0)
  }

  /** From an intermediate state, the count a run ends with is what the
      answers it consumed delivered, by induction on the bytes left. */
  lemma {:induction false} LoopMoved(rets: seq<int>, size: nat, remaining: nat, i: nat, held: bool)
    requires remaining <= size
    requires Answers(rets, remaining, i)
    requires size - remaining == Delivered(rets, i)
    ensures var t := Loop(rets, size, remaining, i, held);
      t.moved == Delivered(rets, i + |t.calls|)
    decreases remaining
  {
    if remaining > 0 && rets[i] > 0 {
      LoopMoved(rets, size, remaining - rets[i], i + 1, held);
      var rest := Loop(rets, size, remaining - rets[i], i + 1, held);
      assert i + |Loop(rets, size, remaining, i, held).calls| == i + 1 + |rest.calls|;
    }
  }

  /** From an intermediate state, the call a run issues after `j` more
      answers starts at the offset the answers so far delivered and asks for
      the rest of the region. */
  lemma {:induction false} LoopCallAt(rets: seq<int>, size: nat, remaining: nat, i: nat, held: bool, j: nat)
    requires remaining <= size
    requires Answers(rets, remaining, i)
    requires size - remaining == Delivered(rets, i)
    requires j < |Loop(rets, size, remaining, i, held).calls|
    ensures Delivered(rets, i + j) < size
    ensures Loop(rets, size, remaining, i, held).calls[j] ==
      Call(Delivered(rets, i + j), size - Delivered(rets, i + j), held)
    decreases remaining
  {
    var t := Loop(rets, size, remaining, i, held);
    assert remaining > 0;
    if j == 0 {
      assert t.calls[0] == Call(size - remaining, remaining, held);
    } else {
      assert rets[i] > 0;
      var rest := Loop(rets, size, remaining - rets[i], i + 1, held);
      assert t.calls == [Call(size - remaining, remaining, held)] + rest.calls;
      LoopCallAt(rets, size, remaining - rets[i], i + 1, held, j - 1);
      assert t.calls[j] == rest.calls[j - 1];
      assert i + 1 + (j - 1) == i + j;
    }
  }

  /** From an intermediate state, every answer a run consumes but the last is
      positive; the run faults exactly when the last is negative and ends
      short exactly when the last is 0 or negative. */
  lemma {:induction false} LoopStops(rets: seq<int>, size: nat, remaining: nat, i: nat, held: bool)
    requires remaining <= size
    requires Answers(rets, remaining, i)
    ensures var t := Loop(rets, size, remaining, i, held);
      (forall j :: i <= j < i + |t.calls| - 1 ==> rets[j] > 0) &&
      (t.faulted <==> |t.calls| > 0 && rets[i + |t.calls| - 1] < 0) &&
      (t.moved < size <==> |t.calls| > 0 && rets[i + |t.calls| - 1] <= 0)
    decreases remaining
  {
    if remaining > 0 && rets[i] > 0 {
      LoopStops(rets, size, remaining - rets[i], i + 1, held);
      var rest := Loop(rets, size, remaining - rets[i], i + 1, held);
      assert |Loop(rets, size, remaining, i, held).calls| == 1 + |rest.calls|;
    }
  }

  /** The count a transfer returns is at most `size` and is the sum of the
      positive answers consumed; the calls consumed that many answers. */
  lemma TransferCount(rets: seq<int>, size: nat, held: bool)
    requires Answers(rets, size, 0)
    ensures var t := Transfer(rets, size, held);
      t.moved <= size && |t.calls| <= |rets| && t.moved == Delivered(rets, |t.calls|)
  {
    LoopMoved(rets, size, size, 0, held);
  }

  /** The call a transfer issues after `j` answers starts where the bytes
      those answers delivered end, and asks for the rest of the region. */
  lemma TransferCallAt(rets: seq<int>, size: nat, held: bool, j: nat)
    requires Answers(rets, size, 0)
    requires j < |Transfer(rets, size, held).calls|
    ensures Delivered(rets, j) < size
    ensures Transfer(rets, size, held).calls[j] ==
      Call(Delivered(rets, j), size - Delivered(rets, j), held)
  {
    LoopCallAt(rets, size, size, 0, held, j);
    assert 0 + j == j;
  }

  /** Every call asks for the rest of the region, starting where the previous
      call's bytes ended: the chunks are contiguous, in order and disjoint. */
  lemma TransferContiguous(rets: seq<int>, size: nat, held: bool)
    requires Answers(rets, size, 0)
    ensures var t := Transfer(rets, size, held);
      (|t.calls| > 0 ==> t.calls[0].offset == 0) &&
      (forall j :: 0 <= j < |t.calls| ==>
         t.calls[j].length > 0 && t.calls[j].offset + t.calls[j].length == size &&
         t.calls[j].lockHeld == held) &&
      (forall j :: 0 < j < |t.calls| ==> t.calls[j].offset == t.calls[j - 1].offset + rets[j - 1])
  {
    var t := Transfer(rets, size, held);
    if |t.calls| > 0 {
      TransferCallAt(rets, size, held, 0);
    }
    forall j | 0 <= j < |t.calls|
      ensures t.calls[j].length > 0 && t.calls[j].offset + t.calls[j].length == size
      ensures t.calls[j].lockHeld == held
    {
      TransferCallAt(rets, size, held, j);
    }
    LoopStops(rets, size, size, 0, held);
    forall j | 0 < j < |t.calls|
      ensures t.calls[j].offset == t.calls[j - 1].offset + rets[j - 1]
    {
      TransferCallAt(rets, size, held, j - 1);
      TransferCallAt(rets, size, held, j);
      assert rets[j - 1] > 0;
    }
  }

  /** No call is issued for an empty transfer; every answer but the last one
      consumed is positive, so the loop ends right after the first answer that
      is 0 or negative; a short count happens exactly when it ended that way,
      and without a fault only at a 0 answer. */
  lemma TransferStops(rets: seq<int>, size: nat, held: bool)
    requires Answers(rets, size, 0)
    ensures var t := Transfer(rets, size, held);
      (size == 0 ==> t.calls == []) &&
      (forall j :: 0 <= j < |t.calls| && rets[j] <= 0 ==> j == |t.calls| - 1) &&
      (t.moved < size <==> |t.calls| > 0 && rets[|t.calls| - 1] <= 0) &&
      (!t.faulted && t.moved < size ==> rets[|t.calls| - 1] == 0)
  {
    LoopStops(rets, size, size, 0, held);
  }

  /** A transfer faults exactly when the last answer it consumed is negative;
      no call follows that answer and the count is then short. */
  lemma TransferFault(rets: seq<int>, size: nat, held: bool)
    requires Answers(rets, size, 0)
    ensures var t := Transfer(rets, size, held);
      (t.faulted <==> |t.calls| > 0 && rets[|t.calls| - 1] < 0) &&
      (t.faulted ==> t.moved < size && forall j :: 0 <= j < |t.calls| - 1 ==> rets[j] > 0)
  {
    LoopStops(rets, size, size, 0, held);
  }

  /** A script with no 0 and no error answer lets the transfer move every
      requested byte. */
  lemma FullTransfer(rets: seq<int>, size: nat, held: bool)
    requires Answers(rets, size, 0)
    requires forall j :: 0 <= j < |rets| ==> rets[j] > 0
    ensures Transfer(rets, size, held).moved == size && !Transfer(rets, size, held).faulted
  {
    TransferStops(rets, size, held);
    TransferFault(rets, size, held);
  }

  /** Whether the lock is held changes nothing but the stamp on each call. */
  lemma {:induction false} LoopIgnoresLock(rets: seq<int>, size: nat, remaining: nat, i: nat, a: bool, b: bool)
    requires remaining <= size
    requires Answers(rets, remaining, i)
    ensures var ta, tb := Loop(rets, size, remaining, i, a), Loop(rets, size, remaining, i, b);
      ta.moved == tb.moved && ta.faulted == tb.faulted && |ta.calls| == |tb.calls| &&
      forall j :: 0 <= j < |ta.calls| ==>
        ta.calls[j].offset == tb.calls[j].offset && ta.calls[j].length == tb.calls[j].length
    decreases remaining
  {
    if remaining > 0 && rets[i] > 0 {
      LoopIgnoresLock(rets, size, remaining - rets[i], i + 1, a, b);
      var ta, tb := Loop(rets, size, remaining, i, a), Loop(rets, size, remaining, i, b);
      var ra, rb := Loop(rets, size, remaining - rets[i], i + 1, a), Loop(rets, size, remaining - rets[i], i + 1, b);
      forall j | 0 < j < |ta.calls|
        ensures ta.calls[j].offset == tb.calls[j].offset && ta.calls[j].length == tb.calls[j].length
      {
        assert ta.calls[j] == ra.calls[j - 1] && tb.calls[j] == rb.calls[j - 1];
      }
    }
  }

  /** A transfer run with the lock held (the asynchronous worker) moves the
      same bytes through the same calls as one run without it. */
  lemma TransferIgnoresLock(rets: seq<int>, size: nat, a: bool, b: bool)
    requires Answers(rets, size, 0)
    ensures var ta, tb := Transfer(rets, size, a), Transfer(rets, size, b);
      ta.moved == tb.moved && ta.faulted == tb.faulted && |ta.calls| == |tb.calls| &&
      forall j :: 0 <= j < |ta.calls| ==>
        ta.calls[j].offset == tb.calls[j].offset && ta.calls[j].length == tb.calls[j].length
  {
    LoopIgnoresLock(rets, size, size, 0, a, b);
  }
}
