/** The remote-procedure-call link to the camera, as a scripted transport: every named call
    is logged and answered by the next entry of a response script, and the raw bulk read
    fills a buffer without changing its length. */
module Rpc {
  import opened Wrappers
  import opened Bytes
  import opened Buffers

  /** The argument of a named call: none, a text, or packed bytes. */
  datatype Payload = NoArg | Text(text: string) | Binary(data: seq<byte>)

  /** What the host did on the link, in order. */
  datatype Event =
    | Called(name: string, arg: Payload)
    | BulkRead(length: nat, timeoutMs: nat)

  /** The device's answers to successive calls; `None` is a call that got no response. */
  type Script = seq<Option<seq<byte>>>

  /** The `k`-th answer of a script; past its end the link stays silent. */
  function At(s: Script, k: nat): Option<seq<byte>>
  {
    if k < |s| then s[k] else None
  }

  /** The script left after `k` calls. */
  function Drop(s: Script, k: nat): Script
  {
    if k <= |s| then s[k..] else []
  }

  /** The answers left after `k` calls are the later answers of the script. */
  lemma DropAt(s: Script, k: nat)
    ensures forall m: nat :: At(Drop(s, k), m) == At(s, k + m)
  {
  }

  lemma DropDrop(s: Script, k: nat, m: nat)
    ensures Drop(Drop(s, k), m) == Drop(s, k + m)
  {
  }

  /** The answer one call gets, and the script left for the next. */
  function Next(s: Script): (Option<seq<byte>>, Script)
  {
    (At(s, 0), Drop(s, 1))
  }

  /** The host end of the link (`rpc.rpc_usb_vcp_master`). */
  class RpcMaster {
    /** every call and bulk read issued so far */
    var log: seq<Event>
    /** the answers still to come */
    var responses: Script
    /** the bytes the device streams during a bulk read */
    var stream: seq<byte>

    constructor (responses: Script, stream: seq<byte>)
      ensures log == [] && this.responses == responses && this.stream == stream
    {
      log := [];
      this.responses := responses;
      this.stream := stream;
    }

    /** `interface.call(name, arg)`: logs the call and returns the next scripted answer. */
    method Call(name: string, arg: Payload) returns (r: Option<seq<byte>>)
      modifies this
      ensures log == old(log) + [Called(name, arg)]
      ensures (r, responses) == Next(old(responses))
      ensures stream == old(stream)
    {
      log := log + [Called(name, arg)];
      r := At(responses, 0);
      responses := Drop(responses, 1);
    }

    /** `interface.get_bytes(buf, timeoutMs)`: a foreign blocking read into the whole buffer.
        Its contract promises only that the buffer keeps its length. */
    method GetBytes(buf: ByteArray, timeoutMs: nat)
      modifies this, buf
      ensures |buf.bytes| == |old(buf.bytes)|
      ensures log == old(log) + [BulkRead(|old(buf.bytes)|, timeoutMs)]
      ensures responses == old(responses) && stream == old(stream)
    {
      log := log + [BulkRead(|buf.bytes|, timeoutMs)];
      var n := Min(|stream|, |buf.bytes|);
      buf.bytes := stream[..n] + buf.bytes[n..];
    }
  }
}
