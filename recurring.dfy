/** codec/io.go's `read` against a connection whose failures recur.  Once a
    connection's read deadline has passed, every Read returns 0 bytes and a
    timeout, which is a net.Error.  The codecs' bufio.Reader hands each such
    error out once and clears it, so the next Read reaches the connection
    again.  `read` retries every net.Error, so it never returns.  The rest of
    the model runs `read` against a finite fault schedule (FrameIO.ReadLoop),
    where FrameIO.ReadRecovers shows the intended recovery. */
module RecurringRead {
  import opened Errors
  import opened Binary
  import opened FrameIO

  /** Where `read(r, data)` with |data| == len stands after some iterations:
      still looping with `index` bytes read and Read call `calls` next, or
      returned with err. */
  datatype ReadState = Reading(calls: nat, index: nat) | Returned(err: Option<Error>)

  /** One iteration of `read`'s loop against a connection whose Read call
      number c has outcome(c): the loop ends once index reaches len, a Read
      error that is not a net.Error is returned, and otherwise the bytes
      delivered are counted before the next iteration. */
  function ReadIteration(outcome: nat -> ReadFault, len: nat, calls: nat, index: nat): (s: ReadState)
    requires index <= len
    ensures s.Reading? ==> s.calls == calls + 1 && index <= s.index <= len
    ensures index == len ==> s == Returned(None)
  {
    if index == len then Returned(None)
    else
      var f := outcome(calls);
      if f.err.Some? && !IsNetError(f.err.value) then Returned(f.err)
      else Reading(calls + 1, index + Min(f.n, len - index))
  }

  /** The state of `read` after k iterations. */
  function Iterate(outcome: nat -> ReadFault, len: nat, calls: nat, index: nat, k: nat): (s: ReadState)
    requires index <= len
    ensures s.Reading? ==> index <= s.index <= len
    decreases k
  {
    if k == 0 then Reading(calls, index)
    else
      match ReadIteration(outcome, len, calls, index)
      case Returned(e) => Returned(e)
      case Reading(c', i') => Iterate(outcome, len, c', i', k - 1)
  }

  /** When every Read from call `calls` on returns 0 bytes and a net.Error,
      and bytes are still to be read, `read` is still looping after k
      iterations, at the same index and k calls further on. */
  lemma {:induction false} RecurringNetErrorSpins(outcome: nat -> ReadFault, len: nat, calls: nat, index: nat, k: nat)
    requires index < len
    requires forall c :: c >= calls ==>
      outcome(c).n == 0 && outcome(c).err.Some? && IsNetError(outcome(c).err.value)
    ensures Iterate(outcome, len, calls, index, k) == Reading(calls + k, index)
    decreases k
  {
    if k > 0 {
      assert ReadIteration(outcome, len, calls, index) == Reading(calls + 1, index);
      RecurringNetErrorSpins(outcome, len, calls + 1, index, k - 1);
    }
  }

  /** A connection whose read deadline has passed: every Read times out
      having delivered nothing. */
  function DeadlinePassed(c: nat): ReadFault {
    ReadFault(0, Some(NetError(0)))
  }

  /** `read` of a single byte from that connection has not returned after
      any number of iterations. */
  lemma DeadlinePassedNeverReturns(k: nat)
    ensures Iterate(DeadlinePassed, 1, 0, 0, k).Reading?
  {
    RecurringNetErrorSpins(DeadlinePassed, 1, 0, 0, k);
  }
}
