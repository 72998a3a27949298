/** The framed command/response protocol: how a command is padded into a
    frame, and what the three bulk phases of one exchange send, receive and
    report. */
module Framing {
  import opened UsbTypes
  import opened Catalog
  import opened Libusb

  /** `frame` is the frame for `cmd`: exactly CMD_LEN bytes, starting with
      `cmd`, zero after it. */
  predicate IsCommandFrame(cmd: seq<u8>, frame: seq<u8>)
  {
    |cmd| <= CMD_LEN && |frame| == CMD_LEN && frame[..|cmd|] == cmd
    && forall i :: |cmd| <= i < CMD_LEN ==> frame[i] == 0
  }

  /** A command has exactly one frame. */
  lemma FrameUnique(cmd: seq<u8>, f: seq<u8>, g: seq<u8>)
    requires IsCommandFrame(cmd, f) && IsCommandFrame(cmd, g)
    ensures f == g
  {
    forall i | 0 <= i < CMD_LEN ensures f[i] == g[i] {
      if i < |cmd| {
        assert f[i] == f[..|cmd|][i] && g[i] == g[..|cmd|][i];
      }
    }
  }

  /** The frame of a command of at most CMD_LEN bytes. */
  function CommandFrame(cmd: seq<u8>): (frame: seq<u8>)
    requires |cmd| <= CMD_LEN
    ensures IsCommandFrame(cmd, frame)
  {
    assert (cmd + Zeros(CMD_LEN - |cmd|))[..|cmd|] == cmd;
    cmd + Zeros(CMD_LEN - |cmd|)
  }

  /** Padding a command by appending zero bytes one at a time. */
  method PadCommand(cmd: seq<u8>) returns (frame: seq<u8>)
    requires |cmd| <= CMD_LEN
    ensures IsCommandFrame(cmd, frame)
  {
    frame := cmd;
    for k := 0 to CMD_LEN - |cmd|
      invariant |frame| == |cmd| + k
      invariant frame[..|cmd|] == cmd
      invariant forall i :: |cmd| <= i < |frame| ==> frame[i] == 0
    {
      frame := frame + [0];
    }
  }

  /** One exchange as the probe saw it: the outcome, the transfers issued,
      the replies not consumed, and the response buffer afterwards. */
  datatype WriteRun = WriteRun(
    result: Result<()>,
    transfers: seq<Transfer>,
    outLeft: seq<Result<nat>>,
    inLeft: seq<Result<seq<u8>>>,
    readBuf: seq<u8>)

  /** The probe accepted the whole frame. */
  predicate CommandAccepted(outQ: seq<Result<nat>>)
  {
    OutCount(outQ, CMD_LEN) == Ok(CMD_LEN)
  }

  /** The data-out phase is skipped, or the probe accepted all of it. */
  predicate DataAccepted(writeData: seq<u8>, outQ: seq<Result<nat>>)
  {
    |writeData| == 0 || OutCount(Rest(outQ), |writeData|) == Ok(|writeData|)
  }

  /** The data-in phase is skipped, or the probe filled the whole buffer. */
  predicate ResponseComplete(readBuf: seq<u8>, inQ: seq<Result<seq<u8>>>)
  {
    |readBuf| == 0 || InCount(inQ, |readBuf|) == Ok(|readBuf|)
  }

  /** One exchange: the command phase sends `frame`; the data-out phase
      sends `writeData` if there is any; the data-in phase fills `readBuf`
      if it is not empty. Each phase must move exactly its own length, and
      the first phase that does not ends the exchange. */
  function WriteSpec(frame: seq<u8>, writeData: seq<u8>, readBuf: seq<u8>,
                     outQ: seq<Result<nat>>, inQ: seq<Result<seq<u8>>>,
                     epOut: u8, epIn: u8): (run: WriteRun)
    requires |frame| == CMD_LEN
    // every exchange starts with the frame, and has at most three phases
    ensures 1 <= |run.transfers| <= 3 && run.transfers[0] == BulkOut(epOut, frame)
    // success exactly when every phase that runs moves its whole length
    ensures run.result.Ok? <==>
              CommandAccepted(outQ) && DataAccepted(writeData, outQ) && ResponseComplete(readBuf, inQ)
    // a short frame is an I/O error and nothing else is sent
    ensures OutCount(outQ, CMD_LEN).Ok? && !CommandAccepted(outQ) ==>
              run.result == Err(Io) && run.transfers == [BulkOut(epOut, frame)]
    // a transfer error in the command phase is passed on, nothing else is sent
    ensures OutCount(outQ, CMD_LEN).Err? ==>
              run.result == Err(OutCount(outQ, CMD_LEN).error) && run.transfers == [BulkOut(epOut, frame)]
    // a short data-out phase is an I/O error and there is no data-in phase
    ensures CommandAccepted(outQ) && |writeData| > 0 && OutCount(Rest(outQ), |writeData|).Ok?
              && !DataAccepted(writeData, outQ) ==>
              run.result == Err(Io)
              && run.transfers == [BulkOut(epOut, frame), BulkOut(epOut, writeData)]
    // a transfer error in the data-out phase is passed on and there is no data-in phase
    ensures CommandAccepted(outQ) && |writeData| > 0 && OutCount(Rest(outQ), |writeData|).Err? ==>
              run.result == Err(OutCount(Rest(outQ), |writeData|).error)
              && run.transfers == [BulkOut(epOut, frame), BulkOut(epOut, writeData)]
    // a short data-in phase is an I/O error
    ensures CommandAccepted(outQ) && DataAccepted(writeData, outQ) && |readBuf| > 0
              && InCount(inQ, |readBuf|).Ok? && !ResponseComplete(readBuf, inQ) ==>
              run.result == Err(Io)
    // a transfer error in the data-in phase is passed on
    ensures CommandAccepted(outQ) && DataAccepted(writeData, outQ) && |readBuf| > 0
              && InCount(inQ, |readBuf|).Err? ==>
              run.result == Err(InCount(inQ, |readBuf|).error)
    // the data phases run only when non-empty and every earlier phase was whole
    ensures CommandAccepted(outQ) && DataAccepted(writeData, outQ) ==>
              run.transfers == [BulkOut(epOut, frame)]
                               + (if |writeData| > 0 then [BulkOut(epOut, writeData)] else [])
                               + (if |readBuf| > 0 then [BulkIn(epIn, |readBuf|)] else [])
    // the response buffer is touched only by a data-in phase
    ensures run.readBuf == if CommandAccepted(outQ) && DataAccepted(writeData, outQ) && |readBuf| > 0
                           then InFill(inQ, readBuf) else readBuf
  {
    var sent := OutCount(outQ, |frame|);
    var outQ1 := Rest(outQ);
    var cmdOnly := [BulkOut(epOut, frame)];
    if sent.Err? then WriteRun(Err(sent.error), cmdOnly, outQ1, inQ, readBuf)
    else if sent.value != CMD_LEN then WriteRun(Err(Io), cmdOnly, outQ1, inQ, readBuf)
    else
      var dataSent := OutCount(outQ1, |writeData|);
      var withData := cmdOnly + [BulkOut(epOut, writeData)];
      if |writeData| > 0 && dataSent.Err? then
        WriteRun(Err(dataSent.error), withData, Rest(outQ1), inQ, readBuf)
      else if |writeData| > 0 && dataSent.value != |writeData| then
        WriteRun(Err(Io), withData, Rest(outQ1), inQ, readBuf)
      else
        var outQ2 := if |writeData| > 0 then Rest(outQ1) else outQ1;
        var beforeIn := if |writeData| > 0 then withData else cmdOnly;
        if |readBuf| == 0 then WriteRun(Ok(()), beforeIn, outQ2, inQ, readBuf)
        else
          var received := InCount(inQ, |readBuf|);
          var all := beforeIn + [BulkIn(epIn, |readBuf|)];
          var filled := InFill(inQ, readBuf);
          if received.Err? then WriteRun(Err(received.error), all, outQ2, Rest(inQ), filled)
          else if received.value != |readBuf| then WriteRun(Err(Io), all, outQ2, Rest(inQ), filled)
          else WriteRun(Ok(()), all, outQ2, Rest(inQ), filled)
  }

  /** A read of `size` bytes from the trace endpoint into a buffer of
      `capacity` bytes: a transfer error is passed on, a count other than
      `size` is an I/O error, otherwise the buffer is returned. */
  function TraceRead(replies: seq<Result<seq<u8>>>, size: nat, capacity: nat): (r: Result<seq<u8>>)
    ensures r.Ok? <==> InCount(replies, capacity) == Ok(size)
    ensures r.Ok? ==> r.value == InFill(replies, Zeros(capacity))
    ensures r.Ok? ==> |r.value| == capacity && size <= capacity
    ensures InCount(replies, capacity).Ok? && InCount(replies, capacity) != Ok(size) ==> r == Err(Io)
    ensures replies == [] ==> r == Err(Timeout)
    ensures replies != [] && replies[0].Err? ==> r == Err(replies[0].error)
  {
    match InCount(replies, capacity)
    case Err(e) => Err(e)
    case Ok(n) => if n != size then Err(Io) else Ok(InFill(replies, Zeros(capacity)))
  }

  /** With a zero-length buffer no read of a positive size can succeed. */
  lemma TraceReadIntoEmptyFails(replies: seq<Result<seq<u8>>>, size: nat)
    requires size > 0
    ensures TraceRead(replies, size, 0).Err?
    ensures replies != [] && replies[0].Ok? ==> TraceRead(replies, size, 0) == Err(Io)
  {
  }

  /** With a buffer of `size` bytes the read succeeds exactly when the
      probe sends at least `size` bytes, and returns the first `size`. */
  lemma TraceReadIntoSizedBuffer(replies: seq<Result<seq<u8>>>, size: nat)
    ensures TraceRead(replies, size, size).Ok? <==>
              replies != [] && replies[0].Ok? && |replies[0].value| >= size
    ensures TraceRead(replies, size, size).Ok? ==>
              TraceRead(replies, size, size).value == replies[0].value[..size]
  {
    if replies != [] && replies[0].Ok? && |replies[0].value| >= size {
      var r := TraceRead(replies, size, size).value;
      assert forall i :: 0 <= i < size ==> r[i] == replies[0].value[..size][i];
    }
  }

  /** Four bytes offered by the probe: the zero-length buffer reports an
      I/O error, the sized buffer returns the four bytes. */
  lemma TraceReadExample()
    ensures TraceRead([Ok([1, 2, 3, 4])], 4, 0) == Err(Io)
    ensures TraceRead([Ok([1, 2, 3, 4])], 4, 4) == Ok([1, 2, 3, 4])
  {
    TraceReadIntoSizedBuffer([Ok([1, 2, 3, 4])], 4);
    assert [1, 2, 3, 4][..4] == [1, 2, 3, 4];
  }
}
