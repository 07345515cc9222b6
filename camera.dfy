/** The remote frame fetch (`camera.py`, `get_frame_buffer_call_back`): a snapshot request
    whose answer is the little-endian size of a JPEG frame, a zero-filled buffer of that size,
    and then either one synchronising call and one bulk read ("cutthrough") or 32 KiB windows
    requested in order, each tried up to three times.

    The functions below say, for a given script of device answers, what the fetch logs,
    which answers it consumes and what it returns; the method is the fetch itself, proved to
    agree with them. */
module Camera {
  import opened Wrappers
  import opened Bytes
  import opened Buffers
  import opened Rpc

  const SnapshotCall: string := "jpeg_image_snapshot"
  const ReadCall: string := "jpeg_image_read"
  /** `1 << 15` */
  const ChunkSize: u32 := 32768
  const MaxAttempts: nat := 3
  const BulkTimeoutMs: nat := 5000

  /** `"%s,%s" % (pixformat_str, framesize_str)` */
  function SnapshotArg(pixformat: string, framesize: string): string
  {
    pixformat + "," + framesize
  }

  /** Splits a text at its first comma, the way a receiver recovers the two tags. */
  function SplitAtComma(s: string): (r: Option<(string, string)>)
    ensures r.Some? ==> ',' !in r.value.0 && s == r.value.0 + "," + r.value.1
    ensures r.None? ==> ',' !in s
  {
    if s == [] then None
    else if s[0] == ',' then Some(([], s[1..]))
    else match SplitAtComma(s[1..])
      case None => None
      case Some(p) => Some(([s[0]] + p.0, p.1))
  }

  /** `struct.pack("<II", offset, chunk_size)`: the argument of one window request. */
  function ChunkRequest(offset: u32): seq<byte>
  {
    PackU32Pair(offset, ChunkSize)
  }

  function ReadChunk(offset: u32): Event
  {
    Called(ReadCall, Binary(ChunkRequest(offset)))
  }

  /** The log entries of window requests at the given offsets, in order. */
  function ReadEvents(offsets: seq<u32>): seq<Event>
  {
    if offsets == [] then [] else [ReadChunk(offsets[0])] + ReadEvents(offsets[1..])
  }

  lemma {:induction false} ReadEventsConcat(a: seq<u32>, b: seq<u32>)
    ensures ReadEvents(a + b) == ReadEvents(a) + ReadEvents(b)
  {
    if a == [] {
      assert a + b == b;
    } else {
      assert (a + b)[1..] == a[1..] + b;
      ReadEventsConcat(a[1..], b);
    }
  }

  function Repeat(x: u32, n: nat): (r: seq<u32>)
    ensures |r| == n && forall k :: 0 <= k < n ==> r[k] == x
  {
    seq(n, _ => x)
  }

  /** The retry loop of one window: the answer it ends with, how many calls it made, and the
      script left afterwards. */
  datatype Attempt = Attempt(response: Option<seq<byte>>, used: nat, rest: Script)

  function After(j: nat, a: Attempt): Attempt
  {
    Attempt(a.response, a.used + j, a.rest)
  }

  /** Up to `n` calls of the retry loop, stopping at the first answer. */
  function TryWindow(s: Script, n: nat): Attempt
  {
    if n == 0 then Attempt(None, 0, s)
    else if At(s, 0).Some? then Attempt(At(s, 0), 1, Drop(s, 1))
    else After(1, TryWindow(Drop(s, 1), n - 1))
  }

  /** The retry loop made at most `n` calls; every call but the last got nothing; it ended
      with the last call's answer, and gave up only once all `n` calls got nothing; it
      consumed exactly one answer of the script per call. */
  ghost predicate StopsAtFirstAnswer(s: Script, n: nat, a: Attempt)
  {
    a.used <= n &&
    (a.response.None? ==> a.used == n) &&
    a.response == (if a.used == 0 then None else At(s, a.used - 1)) &&
    (forall k :: 0 <= k < a.used - 1 ==> At(s, k).None?) &&
    a.rest == Drop(s, a.used)
  }

  lemma {:induction false} TryWindowStopsAtFirstAnswer(s: Script, n: nat)
    ensures StopsAtFirstAnswer(s, n, TryWindow(s, n))
  {
    if n > 0 && At(s, 0).None? {
      var a := TryWindow(Drop(s, 1), n - 1);
      TryWindowStopsAtFirstAnswer(Drop(s, 1), n - 1);
      DropDrop(s, 1, a.used);
      DropAt(s, 1);
      assert forall k :: 1 <= k < a.used + 1 ==> At(s, k) == At(Drop(s, 1), k - 1);
    }
  }

  /** One call of the retry loop: an answer ends it, no answer leaves one attempt fewer. */
  lemma TryWindowStep(s: Script, n: nat)
    requires n > 0
    ensures TryWindow(s, n) == if At(s, 0).Some? then Attempt(At(s, 0), 1, Drop(s, 1))
                               else After(1, TryWindow(Drop(s, 1), n - 1))
  {
  }

  lemma AttemptLogged(l0: seq<Event>, l1: seq<Event>, l2: seq<Event>, offset: u32, j: nat)
    requires l1 == l0 + ReadEvents(Repeat(offset, j)) && l2 == l1 + [ReadChunk(offset)]
    ensures l2 == l0 + ReadEvents(Repeat(offset, j + 1))
  {
    ReadEventsConcat(Repeat(offset, j), [offset]);
    assert Repeat(offset, j) + [offset] == Repeat(offset, j + 1);
  }

  /** The chunked transfer from window offset `i` on: whether it completed, the buffer it
      leaves, the script left, and the offsets of the requests it made, in order. */
  datatype Run = Run(ok: bool, img: seq<byte>, rest: Script, offsets: seq<u32>)

  function Chunked(size: u32, i: nat, img: seq<byte>, s: Script): Run
    decreases size - i
  {
    if size <= i then Run(true, img, s, [])
    else
      var a := TryWindow(s, MaxAttempts);
      var tried := Repeat(i, a.used);
      if a.response.None? then Run(false, img, a.rest, tried)
      else
        var r := Chunked(size, i + ChunkSize, SliceAssign(img, i, i + ChunkSize, a.response.value), a.rest);
        Run(r.ok, r.img, r.rest, tried + r.offsets)
  }

  /** What one fetch returns. `Filled` is the buffer after the foreign bulk read: only its
      length is known. */
  datatype Outcome =
    | Absent
    | HeaderError
    | Frame(bytes: seq<byte>)
    | Filled(length: nat)

  datatype Expected = Expected(outcome: Outcome, events: seq<Event>, rest: Script)

  /** One fetch against the script `s` of device answers. */
  function Fetch(pixformat: string, framesize: string, cutthrough: bool, s: Script): Expected
  {
    var snapshot := [Called(SnapshotCall, Text(SnapshotArg(pixformat, framesize)))];
    var (result, s1) := Next(s);
    if result.None? then Expected(Absent, snapshot, s1)
    else match UnpackU32(result.value)
      case None => Expected(HeaderError, snapshot, s1)
      case Some(size) =>
        if cutthrough then
          var (sync, s2) := Next(s1);
          var synced := snapshot + [Called(ReadCall, NoArg)];
          if sync.None? then Expected(Frame(Zeros(size)), synced, s2)
          else Expected(Filled(size), synced + [BulkRead(size, BulkTimeoutMs)], s2)
        else
          var run := Chunked(size, 0, Zeros(size), s1);
          Expected(if run.ok then Frame(run.img) else Absent, snapshot + ReadEvents(run.offsets), run.rest)
  }

  /** What the method returns: `None`, the exception `struct.unpack` raises on a header
      that is not four bytes long, or the buffer. */
  datatype Fetched = NoFrame | Raised | Returned(buf: ByteArray)

  predicate Delivers(res: Fetched, o: Outcome)
    reads if res.Returned? then {res.buf} else {}
  {
    match o
    case Absent => res.NoFrame?
    case HeaderError => res.Raised?
    case Frame(b) => res.Returned? && res.buf.bytes == b
    case Filled(n) => res.Returned? && |res.buf.bytes| == n
  }

  /** Invariant of the window loop: the whole run is the requests made so far followed by
      the run from the current window on. */
  ghost predicate Continues(whole: Run, done: seq<u32>, remaining: Run)
  {
    whole.ok == remaining.ok && whole.img == remaining.img && whole.rest == remaining.rest &&
    whole.offsets == done + remaining.offsets
  }

  /** The retry loop of one window (`for j in range(3)`): the request for the window at
      `offset` is sent until an answer comes, at most three times; the answer is written over
      `img[offset:offset + chunk_size]`. */
  method ReadWindow(link: RpcMaster, img: ByteArray, offset: u32) returns (ok: bool)
    modifies link, img
    ensures var a := TryWindow(old(link.responses), MaxAttempts);
            ok == a.response.Some? && link.responses == a.rest &&
            link.log == old(link.log) + ReadEvents(Repeat(offset, a.used)) &&
            img.bytes == if ok then SliceAssign(old(img.bytes), offset, offset + ChunkSize, a.response.value)
                         else old(img.bytes)
    ensures link.stream == old(link.stream)
  {
    ok := false;
    var j := 0;
    while j < MaxAttempts
      invariant 0 <= j <= MaxAttempts
      invariant TryWindow(old(link.responses), MaxAttempts) == After(j, TryWindow(link.responses, MaxAttempts - j))
      invariant link.log == old(link.log) + ReadEvents(Repeat(offset, j))
      invariant img.bytes == old(img.bytes)
      invariant link.stream == old(link.stream)
    {
      ghost var sj := link.responses;
      ghost var lj := link.log;
      var r := link.Call(ReadCall, Binary(ChunkRequest(offset)));
      AttemptLogged(old(link.log), lj, link.log, offset, j);
      TryWindowStep(sj, MaxAttempts - j);
      if r.Some? {
        img.SetSlice(offset, offset + ChunkSize, r.value);
        ok := true;
        break;
      }
      j := j + 1;
    }
  }

  /** The window loop of the chunked transfer (the `else` branch of
      `get_frame_buffer_call_back`): windows at offsets `0, 32768, ...` below `size`, each
      retried as `ReadWindow` does; gives up at the first window without an answer. */
  method ReadChunks(link: RpcMaster, img: ByteArray, size: u32) returns (ok: bool)
    modifies link, img
    ensures var run := Chunked(size, 0, old(img.bytes), old(link.responses));
            ok == run.ok && img.bytes == run.img && link.responses == run.rest &&
            link.log == old(link.log) + ReadEvents(run.offsets)
    ensures link.stream == old(link.stream)
  {
    ghost var whole := Chunked(size, 0, img.bytes, link.responses);
    ghost var offsets: seq<u32> := [];
    var i: nat := 0;
    while i < size
      invariant link.log == old(link.log) + ReadEvents(offsets)
      invariant Continues(whole, offsets, Chunked(size, i, img.bytes, link.responses))
      invariant link.stream == old(link.stream)
      decreases size - i
    {
      ghost var s0 := link.responses;
      ghost var img0 := img.bytes;
      ghost var a := TryWindow(s0, MaxAttempts);
      ghost var log0 := link.log;
      ok := ReadWindow(link, img, i);
      LogStep(old(link.log), log0, link.log, offsets, Repeat(i, a.used));
      if !ok {
        WindowExhausted(whole, offsets, size, i, img0, s0);
        return;
      }
      WindowAnswered(whole, offsets, size, i, img0, s0, a.response.value, a.used, a.rest);
      offsets := offsets + Repeat(i, a.used);
      i := i + ChunkSize;
    }
    assert Chunked(size, i, img.bytes, link.responses) == Run(true, img.bytes, link.responses, []);
    assert offsets + [] == offsets;
    ok := true;
  }

  lemma LogStep(l0: seq<Event>, l1: seq<Event>, l2: seq<Event>, a: seq<u32>, b: seq<u32>)
    requires l1 == l0 + ReadEvents(a) && l2 == l1 + ReadEvents(b)
    ensures l2 == l0 + ReadEvents(a + b)
  {
    ReadEventsConcat(a, b);
  }

  lemma WindowAnswered(whole: Run, before: seq<u32>, size: u32, i: nat, img: seq<byte>, s0: Script,
                       r: seq<byte>, used: nat, rest: Script)
    requires i < size
    requires Continues(whole, before, Chunked(size, i, img, s0))
    requires TryWindow(s0, MaxAttempts) == Attempt(Some(r), used, rest)
    ensures Continues(whole, before + Repeat(i, used),
                      Chunked(size, i + ChunkSize, SliceAssign(img, i, i + ChunkSize, r), rest))
  {
  }

  lemma WindowExhausted(whole: Run, before: seq<u32>, size: u32, i: nat, img: seq<byte>, s0: Script)
    requires i < size
    requires Continues(whole, before, Chunked(size, i, img, s0))
    requires TryWindow(s0, MaxAttempts).response.None?
    ensures !whole.ok && whole.img == img && whole.rest == TryWindow(s0, MaxAttempts).rest
    ensures whole.offsets == before + Repeat(i, MaxAttempts)
  {
    TryWindowStopsAtFirstAnswer(s0, MaxAttempts);
  }

  /** `get_frame_buffer_call_back` over the link `link`. */
  method GetFrameBufferCallBack(link: RpcMaster, pixformat: string := "sensor.GRAYSCALE",
                                framesize: string := "sensor.B128X128", cutthrough: bool := true)
    returns (res: Fetched)
    modifies link
    ensures var e := Fetch(pixformat, framesize, cutthrough, old(link.responses));
            link.log == old(link.log) + e.events && link.responses == e.rest
    ensures Delivers(res, Fetch(pixformat, framesize, cutthrough, old(link.responses)).outcome)
    ensures res.Returned? ==> fresh(res.buf)
    ensures link.stream == old(link.stream)
  {
    var result := link.Call(SnapshotCall, Text(SnapshotArg(pixformat, framesize)));
    if result.None? {
      return NoFrame;
    }
    var header := UnpackU32(result.value);
    if header.None? {
      return Raised;
    }
    var size := header.value;
    var img := new ByteArray(size);
    if cutthrough {
      var sync := link.Call(ReadCall, NoArg);
      if sync.Some? {
        link.GetBytes(img, BulkTimeoutMs);
      }
    } else {
      var ok := ReadChunks(link, img, size);
      if !ok {
        return NoFrame;
      }
    }
    return Returned(img);
  }
}
