/** The libusb side of the transport: bulk transfers on an open handle.
    What the probe answers is a script, one queue for OUT transfers and one
    for IN transfers, consumed one reply per transfer; a queue that has run
    dry stands for a probe that never answers, so the transfer times out.
    Every transfer that is issued is recorded in `log`. */
module Libusb {
  import opened UsbTypes

  /** A bulk transfer as the host issued it. */
  datatype Transfer =
    | BulkOut(endpoint: u8, data: seq<u8>)
    | BulkIn(endpoint: u8, length: nat)

  /** The queue after one reply has been consumed. */
  function Rest<T>(replies: seq<T>): (rest: seq<T>)
    ensures replies != [] ==> replies == replies[..1] + rest
    ensures replies == [] ==> rest == []
  {
    if replies == [] then [] else replies[1..]
  }

  /** What a bulk OUT transfer of `length` bytes reports: the number of
      bytes the probe accepted (never more than were offered), or an error. */
  function OutCount(replies: seq<Result<nat>>, length: nat): (r: Result<nat>)
    ensures r.Ok? ==> r.value <= length
    ensures r == Ok(length) <==> replies != [] && replies[0].Ok? && replies[0].value >= length
    ensures replies == [] ==> r == Err(Timeout)
    ensures replies != [] && replies[0].Err? ==> r == Err(replies[0].error)
  {
    if replies == [] then Err(Timeout)
    else match replies[0]
      case Ok(n) => Ok(Min(n, length))
      case Err(e) => Err(e)
  }

  /** The bytes the probe sends in answer to the next IN transfer. */
  function Delivered(replies: seq<Result<seq<u8>>>): seq<u8>
  {
    if replies != [] && replies[0].Ok? then replies[0].value else []
  }

  /** What a bulk IN transfer into a `length`-byte buffer reports: the
      number of bytes received (never more than fit), or an error. */
  function InCount(replies: seq<Result<seq<u8>>>, length: nat): (r: Result<nat>)
    ensures r.Ok? ==> r.value <= length && r.value <= |Delivered(replies)|
    ensures r == Ok(length) <==> replies != [] && replies[0].Ok? && |replies[0].value| >= length
    ensures replies == [] ==> r == Err(Timeout)
    ensures replies != [] && replies[0].Err? ==> r == Err(replies[0].error)
  {
    if replies == [] then Err(Timeout)
    else match replies[0]
      case Ok(bytes) => Ok(Min(|bytes|, length))
      case Err(e) => Err(e)
  }

  /** The buffer after a bulk IN transfer into `buf`: the received bytes
      overwrite its head, the rest is left as it was. */
  function InFill(replies: seq<Result<seq<u8>>>, buf: seq<u8>): (r: seq<u8>)
    ensures |r| == |buf|
    ensures forall i :: 0 <= i < |buf| ==>
              r[i] == if i < |Delivered(replies)| then Delivered(replies)[i] else buf[i]
  {
    var bytes := Delivered(replies);
    var k := Min(|bytes|, |buf|);
    bytes[..k] + buf[k..]
  }

  /** The USB subsystem as seen through the open device handles. */
  class UsbBus {
    var outReplies: seq<Result<nat>>
    var inReplies: seq<Result<seq<u8>>>
    var log: seq<Transfer>

    constructor (outReplies: seq<Result<nat>>, inReplies: seq<Result<seq<u8>>>)
      ensures this.outReplies == outReplies && this.inReplies == inReplies && log == []
    {
      this.outReplies := outReplies;
      this.inReplies := inReplies;
      log := [];
    }

    /** A bulk OUT transfer of `data` to `endpoint`. */
    method WriteBulk(endpoint: u8, data: seq<u8>) returns (r: Result<nat>)
      modifies this
      ensures r == OutCount(old(outReplies), |data|)
      ensures outReplies == Rest(old(outReplies)) && inReplies == old(inReplies)
      ensures log == old(log) + [BulkOut(endpoint, data)]
    {
      r := OutCount(outReplies, |data|);
      outReplies := Rest(outReplies);
      log := log + [BulkOut(endpoint, data)];
    }

    /** A bulk IN transfer from `endpoint` into `buf`. */
    method ReadBulk(endpoint: u8, buf: array<u8>) returns (r: Result<nat>)
      modifies this, buf
      ensures r == InCount(old(inReplies), buf.Length)
      ensures buf[..] == InFill(old(inReplies), old(buf[..]))
      ensures inReplies == Rest(old(inReplies)) && outReplies == old(outReplies)
      ensures log == old(log) + [BulkIn(endpoint, buf.Length)]
    {
      r := InCount(inReplies, buf.Length);
      var bytes := Delivered(inReplies);
      var k := Min(|bytes|, buf.Length);
      var i := 0;
      while i < k
        modifies buf
        invariant 0 <= i <= k
        invariant forall j :: 0 <= j < i ==> buf[j] == bytes[j]
        invariant forall j :: i <= j < buf.Length ==> buf[j] == old(buf[j])
      {
        buf[i] := bytes[i];
        i := i + 1;
      }
      ghost var filled := InFill(inReplies, old(buf[..]));
      assert forall j :: 0 <= j < buf.Length ==> buf[..][j] == filled[j];
      inReplies := Rest(inReplies);
      log := log + [BulkIn(endpoint, buf.Length)];
    }
  }
}
