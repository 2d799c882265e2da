/** codec/io.go's `write` behind the bufio.Writer the codecs actually pass
    it (codec/client.go:29, codec/server.go:34).  A bufio.Writer keeps the
    first error its connection returns: every later Write and Flush returns
    that error again, having accepted no bytes.  `write` retries every
    net.Error, so once the kept error is a net.Error (a write timeout, say)
    each iteration gets the same (0, error) and the loop never ends.  The
    rest of the model runs `write` against a writer whose failures are
    one-shot (FrameIO.Writer), where FrameIO.WriteRecovers shows the
    intended recovery. */
module BufferedWrite {
  import opened Errors
  import opened FrameIO

  /** What `write` sees of the bufio.Writer: the connection's fault schedule,
      the Write calls made on the connection so far, and the error the
      bufio.Writer has kept, if any. */
  datatype BufWriter = BufWriter(faults: seq<WriteFault>, calls: nat, kept: Option<Error>)

  /** bufio.Writer.Write of k bytes that go through to the connection
      (writes that fit the buffer are accepted without a call and are not
      modelled here): a
      kept error is returned again with nothing accepted and no call on the
      connection; otherwise the connection's outcome is returned and its
      error, if any, is kept. */
  function BufWrite(b: BufWriter, k: nat): (r: (Transfer, BufWriter))
    ensures r.0.n <= k
    ensures b.kept.Some? ==> r.0 == Transfer(0, b.kept) && r.1 == b
    ensures b.kept.None? ==> r.0 == WriteCall(b.faults, b.calls, k)
                             && r.1 == BufWriter(b.faults, b.calls + 1, r.0.err)
  {
    if b.kept.Some? then (Transfer(0, b.kept), b)
    else
      var t := WriteCall(b.faults, b.calls, k);
      (t, BufWriter(b.faults, b.calls + 1, t.err))
  }

  /** Where `write(w, data)` with |data| == len stands after some iterations:
      still looping with `index` bytes accepted, or returned with err. */
  datatype WriteState = Looping(b: BufWriter, index: nat) | Returned(err: Option<Error>)

  /** One iteration of `write`'s loop: the loop ends once index reaches len,
      and a Write ends it unless it failed with a net.Error, whose bytes are
      counted before the next iteration. */
  function WriteIteration(b: BufWriter, len: nat, index: nat): (s: WriteState)
    requires index <= len
    ensures s.Looping? ==> index <= s.index <= len
    ensures index == len ==> s == Returned(None)
  {
    if index == len then Returned(None)
    else
      var (t, b') := BufWrite(b, len - index);
      if t.err.None? || !IsNetError(t.err.value) then Returned(t.err)
      else Looping(b', index + t.n)
  }

  /** The state of `write` after k iterations. */
  function Iterate(b: BufWriter, len: nat, index: nat, k: nat): (s: WriteState)
    requires index <= len
    ensures s.Looping? ==> s.index <= len
    decreases k
  {
    if k == 0 then Looping(b, index)
    else
      match WriteIteration(b, len, index)
      case Returned(e) => Returned(e)
      case Looping(b', i') => Iterate(b', len, i', k - 1)
  }

  /** Once the bufio.Writer has kept a net.Error and bytes are still to be
      written, no number of iterations gets `write` any further: the state
      after k iterations is the state it started from. */
  lemma {:induction false} KeptNetErrorSpins(b: BufWriter, len: nat, index: nat, k: nat)
    requires index < len && b.kept.Some? && IsNetError(b.kept.value)
    ensures Iterate(b, len, index, k) == Looping(b, index)
  {
    if k > 0 {
      assert WriteIteration(b, len, index) == Looping(b, index);
      KeptNetErrorSpins(b, len, index, k - 1);
    }
  }

  /** The bufio.Writer's 4096-byte buffer is full when a one-byte write
      arrives, so the Write goes through to the connection, which times out
      having accepted nothing (a Flush that times out before the next
      WriteRequest leads to the same state): `write` has not returned after
      any number of iterations. */
  lemma TimeoutNeverReturns(k: nat)
    ensures Iterate(BufWriter([WriteFault(0, NetError(0))], 0, None), 1, 0, k).Looping?
  {
    var b0 := BufWriter([WriteFault(0, NetError(0))], 0, None);
    var b1 := BufWriter([WriteFault(0, NetError(0))], 1, Some(NetError(0)));
    if k > 0 {
      assert WriteIteration(b0, 1, 0) == Looping(b1, 0);
      KeptNetErrorSpins(b1, 1, 0, k - 1);
    }
  }
}
