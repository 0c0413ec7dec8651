/** The "devices -l" command of src/host_command.cpp: each chunk of the reply is read and, on
    success, the list gathered so far has its spaces collapsed. */
module HostCommands {
  import opened Options
  import opened Text
  import opened Protocol
  import opened DeviceList

  /** One run of the message callback. */
  function DevicesStep(chunk: string, r: Reply): Option<Reply> {
    match ReadChunk(chunk, r)
    case None => None
    case Some(n) => Some(if n.status != -1 then n.(result := Collapse(n.result)) else n)
  }

  function DevicesAll(chunks: seq<string>, r: Reply): Option<Reply>
    decreases |chunks|
  {
    if chunks == [] then Some(r)
    else
      match DevicesStep(chunks[0], r)
      case None => None
      case Some(next) => DevicesAll(chunks[1..], next)
  }

  class HostCommand {
    var error: string
    // The variables of the caller that the callback refers to.
    var status: int
    var devicesList: string

    constructor ()
      ensures error == "" && status == -1 && devicesList == ""
    {
      error, status, devicesList := "", -1, "";
    }

    function Gathered(): Reply
      reads this
    {
      Reply(status, devicesList, error)
    }

    /** The message callback of get_devices_with_path; false where the source would read past
        the chunk, and then nothing is stored. */
    method OnDevicesMessage(buf: string) returns (defined: bool)
      modifies this
      ensures defined <==> DevicesStep(buf, old(Gathered())).Some?
      ensures Gathered() == if defined then DevicesStep(buf, old(Gathered())).value else old(Gathered())
    {
      var r := ReadProtocolString(buf, devicesList, error);
      assert r == ReadChunk(buf, Gathered());
      if r.None? {
        return false;
      }
      status, devicesList, error := r.value.status, r.value.result, r.value.error;
      if status != -1 {
        devicesList := UniqueSpaces(devicesList);
      }
      return true;
    }
  }

  function Collapsed(r: Option<Reply>): Option<Reply> {
    match r
    case None => None
    case Some(x) => Some(x.(result := Collapse(x.result)))
  }

  /** Collapsing after every chunk of any reply, good or bad, ends with the same list, status
      and error as reading all chunks and collapsing once. */
  lemma {:induction false} CollapsePerChunk(chunks: seq<string>, r: Reply)
    ensures DevicesAll(chunks, r.(result := Collapse(r.result))) == Collapsed(ReadAll(chunks, r))
    decreases |chunks|
  {
    if chunks != [] {
      CollapseOneChunk(chunks[0], r);
      if ReadChunk(chunks[0], r).Some? {
        CollapsePerChunk(chunks[1..], ReadChunk(chunks[0], r).value);
      }
    }
  }

  lemma CollapseOneChunk(c: string, r: Reply)
    ensures DevicesStep(c, r.(result := Collapse(r.result))) == Collapsed(ReadChunk(c, r))
  {
    var x := if |c| < 4 then CString(c) else if |c| == 4 then ""
             else if StartsWith(c, OKAY) then (if |c| < 8 then "" else CString(c[8..])) else CString(c[4..]);
    CollapseConcat(r.result, x);
    CollapseIdempotent(r.result);
  }

  /** A failure leaves the list as it is, collapsed or not, and adds its message to the error;
      a success collapses all of the list, what was there before included. */
  lemma DevicesFailure(len: string, message: string, r: Reply)
    requires |len| == 4 && NUL !in message
    ensures DevicesStep(FailReply(len, message), r) == Some(Reply(-1, r.result, r.error + message))
    ensures DevicesStep(FAIL, r) == Some(r.(status := -1))
    ensures DevicesStep(OkayReply(len, message), r) == Some(Reply(0, Collapse(r.result + message), r.error))
  {
    var f, o := FailReply(len, message), OkayReply(len, message);
    assert f[..4] == FAIL && f[8..] == message && o[..4] == OKAY && o[8..] == message;
    NulFree(message);
  }

  /** From the wire to the device list: whenever a reply is cut as SegmentationAfterHeader
      asks, what the callback leaves behind parses to exactly the devices the server printed,
      if and only if each of them is recoverable. */
  lemma DevicesEndToEnd(ps: seq<Printed>, len: string, chunks: seq<string>, error: string)
    requires AllPrintable(ps) && NUL !in PrintAll(ps)
    requires |len| == 4 && LowerHex(len)
    requires |chunks| >= 1 && Concat(chunks) == OkayReply(len, PrintAll(ps))
    requires |chunks[0]| >= 8 || (|chunks[0]| == 4 && |chunks| >= 2 && |chunks[1]| >= 4)
    requires AllShort(chunks[if |chunks[0]| == 4 then 2 else 1..])
    ensures DevicesAll(chunks, Reply(-1, "", error)) == Some(Reply(0, Collapse(PrintAll(ps)), error))
    ensures var list := DevicesAll(chunks, Reply(-1, "", error)).value.result;
            ParseLines(Lines(list)) == Some(Infos(ps)) <==> AllRecoverable(ps)
  {
    var r := Reply(-1, "", error);
    SegmentationAfterHeader(chunks, len, PrintAll(ps), r);
    assert "" + PrintAll(ps) == PrintAll(ps);
    CollapsePerChunk(chunks, r);
    assert r.(result := Collapse("")) == r;
    DeviceListRoundTrip(ps);
  }

  /** The same for the plain list, whose callback only reads the chunks. */
  lemma PlainDevicesEndToEnd(ps: seq<Printed>, len: string, chunks: seq<string>, error: string)
    requires AllPrintable(ps) && NUL !in PrintAll(ps) && forall i :: 0 <= i < |ps| ==> ps[i].Short?
    requires |len| == 4 && LowerHex(len)
    requires |chunks| >= 1 && Concat(chunks) == OkayReply(len, PrintAll(ps))
    requires |chunks[0]| >= 8 || (|chunks[0]| == 4 && |chunks| >= 2 && |chunks[1]| >= 4)
    requires AllShort(chunks[if |chunks[0]| == 4 then 2 else 1..])
    ensures ReadAll(chunks, Reply(0, "", error)) == Some(Reply(0, PrintAll(ps), error))
    ensures ParseLines(Lines(ReadAll(chunks, Reply(0, "", error)).value.result)) == Some(Infos(ps)) <==> AllRecoverable(ps)
  {
    SegmentationAfterHeader(chunks, len, PrintAll(ps), Reply(0, "", error));
    assert "" + PrintAll(ps) == PrintAll(ps);
    ShortListRoundTrip(ps);
  }
}
