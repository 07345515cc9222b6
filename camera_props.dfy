/** What the frame fetch promises, proved about the functions that specify it. */
module CameraProperties {
  import opened Wrappers
  import opened Bytes
  import opened Buffers
  import opened Rpc
  import opened Camera

  // ---------------------------------------------------------------------------------------
  // The snapshot request
  // ---------------------------------------------------------------------------------------

  /** When the tags carry no comma, the snapshot argument splits back into the two tags. */
  lemma {:induction false} SnapshotArgRoundTrip(pixformat: string, framesize: string)
    requires ',' !in pixformat
    ensures SplitAtComma(SnapshotArg(pixformat, framesize)) == Some((pixformat, framesize))
  {
    if pixformat == [] {
      assert SnapshotArg(pixformat, framesize) == [','] + framesize;
    } else {
      SnapshotArgRoundTrip(pixformat[1..], framesize);
      assert SnapshotArg(pixformat, framesize)[1..] == SnapshotArg(pixformat[1..], framesize);
      assert [pixformat[0]] + pixformat[1..] == pixformat;
    }
  }

  /** No answer to the snapshot request: the fetch returns `None` after that one call,
      consuming one answer and allocating nothing. */
  lemma SnapshotUnanswered(pixformat: string, framesize: string, cutthrough: bool, s: Script)
    requires At(s, 0).None?
    ensures Fetch(pixformat, framesize, cutthrough, s)
            == Expected(Absent, [Called(SnapshotCall, Text(SnapshotArg(pixformat, framesize)))], Drop(s, 1))
  {
  }

  /** A snapshot answer that is not exactly four bytes makes `struct.unpack` raise, after
      that one call. */
  lemma BadHeaderRaises(pixformat: string, framesize: string, cutthrough: bool, s: Script, h: seq<byte>)
    requires At(s, 0) == Some(h) && |h| != 4
    ensures Fetch(pixformat, framesize, cutthrough, s)
            == Expected(HeaderError, [Called(SnapshotCall, Text(SnapshotArg(pixformat, framesize)))], Drop(s, 1))
  {
  }

  // ---------------------------------------------------------------------------------------
  // Cutthrough mode
  // ---------------------------------------------------------------------------------------

  /** Cutthrough: after the snapshot comes one `jpeg_image_read` call with no argument, and
      exactly one bulk read of the whole `size` bytes only if that call was answered. The
      buffer is returned either way; without the answer it is still `size` zero bytes, where
      `size` is the little-endian value of the four header bytes. */
  lemma Cutthrough(pixformat: string, framesize: string, s: Script, h: seq<byte>)
    requires At(s, 0) == Some(h) && |h| == 4
    ensures var size := h[0] as int + 256 * h[1] as int + 65536 * h[2] as int + 16777216 * h[3] as int;
            var synced := [Called(SnapshotCall, Text(SnapshotArg(pixformat, framesize))), Called(ReadCall, NoArg)];
            Fetch(pixformat, framesize, true, s)
            == if At(s, 1).Some? then Expected(Filled(size), synced + [BulkRead(size, BulkTimeoutMs)], Drop(s, 2))
               else Expected(Frame(Zeros(size)), synced, Drop(s, 2))
  {
    DropAt(s, 1);
    DropDrop(s, 1, 1);
  }

  // ---------------------------------------------------------------------------------------
  // Window requests
  // ---------------------------------------------------------------------------------------

  /** Every window request is eight bytes that decode back to `(offset, 32768)`. */
  lemma ChunkRequestRoundTrip(offset: u32)
    ensures |ChunkRequest(offset)| == 8
    ensures UnpackU32Pair(ChunkRequest(offset)) == Some((offset, ChunkSize))
  {
    PackedPairRoundTrip(offset, ChunkSize);
  }

  lemma {:induction false} ReadEventsAt(offsets: seq<u32>, k: nat)
    requires k < |offsets|
    ensures |ReadEvents(offsets)| == |offsets|
    ensures ReadEvents(offsets)[k] == ReadChunk(offsets[k])
  {
    if k > 0 {
      ReadEventsAt(offsets[1..], k - 1);
    } else {
      ReadEventsLength(offsets);
    }
  }

  lemma {:induction false} ReadEventsLength(offsets: seq<u32>)
    ensures |ReadEvents(offsets)| == |offsets|
  {
    if offsets != [] {
      ReadEventsLength(offsets[1..]);
    }
  }

  lemma StepMod(o: int, i: int)
    requires (o - (i + ChunkSize)) % ChunkSize == 0
    ensures (o - i) % ChunkSize == 0
  {
    var q := (o - (i + ChunkSize)) / ChunkSize;
    assert o - (i + ChunkSize) == ChunkSize * q;
    assert o - i == ChunkSize * (q + 1);
  }

  lemma NextMultiple(o: int, i: int)
    requires i < o && (o - i) % ChunkSize == 0
    ensures i + ChunkSize <= o && (o - (i + ChunkSize)) % ChunkSize == 0
  {
    var q := (o - i) / ChunkSize;
    assert o - i == ChunkSize * q;
    assert q >= 1;
    assert o - (i + ChunkSize) == ChunkSize * (q - 1);
  }

  /** Every offset is a window offset `i, i + 32768, ...` below `size`. */
  ghost predicate OnWindowGrid(offs: seq<u32>, i: nat, size: u32)
  {
    forall k :: 0 <= k < |offs| ==> i <= offs[k] < size && (offs[k] - i) % ChunkSize == 0
  }

  /** Offsets never decrease, and none occurs more than three times: each is below the one
      three places later. */
  ghost predicate OrderedAtMostThrice(offs: seq<u32>)
  {
    (forall a, b :: 0 <= a <= b < |offs| ==> offs[a] <= offs[b]) &&
    (forall k :: 0 <= k && k + MaxAttempts < |offs| ==> offs[k] < offs[k + MaxAttempts])
  }

  /** Prepending requests for window `i` to requests on the grid from the next window on
      stays on the grid from `i`. */
  lemma GridPrepend(i: nat, u: nat, rec: seq<u32>, size: u32)
    requires i < size && OnWindowGrid(rec, i + ChunkSize, size)
    ensures OnWindowGrid(Repeat(i, u) + rec, i, size)
  {
    var offs := Repeat(i, u) + rec;
    forall k | 0 <= k < |offs| ensures i <= offs[k] < size && (offs[k] - i) % ChunkSize == 0 {
      if k >= u {
        assert offs[k] == rec[k - u];
        StepMod(rec[k - u], i);
      }
    }
  }

  /** Requests go only to window offsets `i, i + 32768, ...` below the payload size. */
  lemma {:induction false} ChunkedOffsetsInRange(size: u32, i: nat, img: seq<byte>, s: Script)
    ensures OnWindowGrid(Chunked(size, i, img, s).offsets, i, size)
    decreases size - i
  {
    if i < size {
      var a := TryWindow(s, MaxAttempts);
      if a.response.None? {
        assert Chunked(size, i, img, s).offsets == Repeat(i, a.used);
      } else {
        var img' := SliceAssign(img, i, i + ChunkSize, a.response.value);
        ChunkedOffsetsInRange(size, i + ChunkSize, img', a.rest);
        GridPrepend(i, a.used, Chunked(size, i + ChunkSize, img', a.rest).offsets, size);
      }
    }
  }

  /** Requests are made in increasing offset order, at most three per window. */
  lemma {:induction false} ChunkedOffsetsOrdered(size: u32, i: nat, img: seq<byte>, s: Script)
    ensures OrderedAtMostThrice(Chunked(size, i, img, s).offsets)
    decreases size - i
  {
    if i < size {
      var a := TryWindow(s, MaxAttempts);
      TryWindowStopsAtFirstAnswer(s, MaxAttempts);
      var offs := Chunked(size, i, img, s).offsets;
      if a.response.None? {
        assert offs == Repeat(i, a.used);
      } else {
        var img' := SliceAssign(img, i, i + ChunkSize, a.response.value);
        ChunkedOffsetsOrdered(size, i + ChunkSize, img', a.rest);
        ChunkedOffsetsInRange(size, i + ChunkSize, img', a.rest);
        OrderedPrepend(i, a.used, Chunked(size, i + ChunkSize, img', a.rest).offsets, size);
      }
    }
  }

  /** At most three requests for window `i`, followed by ordered requests all beyond `i`,
      are ordered. */
  lemma OrderedPrepend(i: nat, u: nat, rec: seq<u32>, size: u32)
    requires i < size && u <= MaxAttempts && OrderedAtMostThrice(rec) && OnWindowGrid(rec, i + ChunkSize, size)
    ensures OrderedAtMostThrice(Repeat(i, u) + rec)
  {
    var offs := Repeat(i, u) + rec;
    assert forall k :: 0 <= k < u ==> offs[k] == i;
    assert forall k :: u <= k < |offs| ==> offs[k] == rec[k - u] && i < offs[k];
  }

  /** The last three requests went to one offset, and no request went beyond it. */
  ghost predicate EndsWithThreeFailures(offs: seq<u32>)
  {
    |offs| >= MaxAttempts &&
    offs[|offs| - 1] == offs[|offs| - 2] == offs[|offs| - 3] &&
    forall k :: 0 <= k < |offs| ==> offs[k] <= offs[|offs| - 1]
  }

  /** A run that gives up does so on a window that got three unanswered requests, and those
      are its last requests: nothing is asked for any later offset. */
  lemma {:induction false} ChunkedGivesUp(size: u32, i: nat, img: seq<byte>, s: Script)
    requires !Chunked(size, i, img, s).ok
    ensures EndsWithThreeFailures(Chunked(size, i, img, s).offsets)
    decreases size - i
  {
    ChunkedOffsetsOrdered(size, i, img, s);
    var a := TryWindow(s, MaxAttempts);
    TryWindowStopsAtFirstAnswer(s, MaxAttempts);
    if a.response.Some? {
      ChunkedGivesUp(size, i + ChunkSize, SliceAssign(img, i, i + ChunkSize, a.response.value), a.rest);
    }
  }

  /** Every window offset `i, i + 32768, ...` below `size` occurs. */
  ghost predicate CoversGrid(offs: seq<u32>, i: nat, size: u32)
  {
    forall o :: i <= o < size && (o - i) % ChunkSize == 0 ==> o in offs
  }

  /** A run that completes has requested every window offset below the size. */
  lemma {:induction false} ChunkedCoversWindows(size: u32, i: nat, img: seq<byte>, s: Script)
    requires Chunked(size, i, img, s).ok
    ensures CoversGrid(Chunked(size, i, img, s).offsets, i, size)
    decreases size - i
  {
    if i < size {
      var a := TryWindow(s, MaxAttempts);
      TryWindowStopsAtFirstAnswer(s, MaxAttempts);
      var img' := SliceAssign(img, i, i + ChunkSize, a.response.value);
      ChunkedCoversWindows(size, i + ChunkSize, img', a.rest);
      var offs := Chunked(size, i, img, s).offsets;
      var rec := Chunked(size, i + ChunkSize, img', a.rest).offsets;
      assert offs == Repeat(i, a.used) + rec;
      forall o | i <= o < size && (o - i) % ChunkSize == 0 ensures o in offs {
        if o == i {
          assert offs[0] == i;
        } else {
          NextMultiple(o, i);
          assert o in rec;
        }
      }
    }
  }

  // ---------------------------------------------------------------------------------------
  // The windows of a payload
  // ---------------------------------------------------------------------------------------

  /** The window offsets from `i` on: `i, i + 32768, ...` while below `size`. */
  function WindowOffsets(size: u32, i: nat): seq<u32>
    decreases size - i
  {
    if size <= i then [] else [i as u32] + WindowOffsets(size, i + ChunkSize)
  }

  /** The answer length that fills the window at `o` exactly: `min(chunk_size, size - o)`. */
  function WindowLength(size: u32, o: nat): nat
  {
    if size <= o then 0 else Min(ChunkSize, size - o)
  }

  /** `ceil(n / 32768)` for `n > 0`, and 0 otherwise. */
  function NumWindows(n: int): nat
  {
    if n <= 0 then 0 else (n + ChunkSize - 1) / ChunkSize
  }

  /** There are `ceil((size - i) / 32768)` windows, the `k`-th at `i + k * 32768`. */
  lemma {:induction false} WindowOffsetsAt(size: u32, i: nat)
    ensures |WindowOffsets(size, i)| == NumWindows(size - i)
    ensures forall k :: 0 <= k < |WindowOffsets(size, i)| ==> WindowOffsets(size, i)[k] == i + k * ChunkSize
    decreases size - i
  {
    if i < size {
      WindowOffsetsAt(size, i + ChunkSize);
      var n := size - i;
      if n <= ChunkSize {
        assert NumWindows(n) == 1;
      } else {
        assert (n + ChunkSize - 1) / ChunkSize == 1 + (n - ChunkSize + ChunkSize - 1) / ChunkSize;
      }
      var w := WindowOffsets(size, i);
      var w' := WindowOffsets(size, i + ChunkSize);
      forall k | 0 <= k < |w| ensures w[k] == i + k * ChunkSize {
        if k > 0 {
          assert w[k] == w'[k - 1];
          assert (k - 1) * ChunkSize + ChunkSize == k * ChunkSize;
        }
      }
    }
  }

  /** The answers fill the windows from `i` on exactly: one per window, each of the
      window's length. */
  ghost predicate Fits(size: u32, i: nat, chunks: seq<seq<byte>>)
  {
    var w := WindowOffsets(size, i);
    |chunks| == |w| && forall k :: 0 <= k < |chunks| ==> |chunks[k]| == WindowLength(size, w[k])
  }

  /** A script that answers every call, with the given chunks. */
  function Answers(chunks: seq<seq<byte>>): (s: Script)
    ensures |s| == |chunks| && forall k :: 0 <= k < |chunks| ==> s[k] == Some(chunks[k])
  {
    seq(|chunks|, k requires 0 <= k < |chunks| => Some(chunks[k]))
  }

  function Flatten(chunks: seq<seq<byte>>): seq<byte>
  {
    if chunks == [] then [] else chunks[0] + Flatten(chunks[1..])
  }

  /** When every window is answered at its first request with exactly the window's length,
      the run completes with one request per window in increasing order, keeps the buffer's
      length, and leaves the bytes before `i` followed by the answers laid end to end: no
      gap and no overlap. */
  lemma {:induction false} ChunkedAllFirstAttempts(size: u32, i: nat, img: seq<byte>,
                                                     chunks: seq<seq<byte>>, tail: Script)
    requires |img| == size && i <= size
    requires Fits(size, i, chunks)
    ensures |Flatten(chunks)| == size - i
    ensures Chunked(size, i, img, Answers(chunks) + tail)
            == Run(true, img[..i] + Flatten(chunks), tail, WindowOffsets(size, i))
    decreases size - i
  {
    var s := Answers(chunks) + tail;
    if i == size {
      assert chunks == [];
      assert Answers(chunks) + tail == tail;
    } else {
      FitsFirst(size, i, chunks);
      var c := chunks[0];
      AnswersStep(chunks, tail);
      ChunkedAnsweredAtOnce(size, i, img, s, c);
      var img' := SliceAssign(img, i, i + ChunkSize, c);
      var r := Chunked(size, i + ChunkSize, img', Answers(chunks[1..]) + tail);
      assert Chunked(size, i, img, s) == Run(r.ok, r.img, r.rest, [i as u32] + r.offsets);
      WindowWritten(img, i, c, img');
      if i + ChunkSize <= size {
        ChunkedAllFirstAttempts(size, i + ChunkSize, img', chunks[1..], tail);
        assert img[..i] + c + Flatten(chunks[1..]) == img[..i] + Flatten(chunks);
      } else {
        assert Answers(chunks[1..]) + tail == tail;
        assert Flatten(chunks) == c;
      }
    }
  }

  /** The answers for the windows from `i` on start with one for window `i`, and the rest
      fit the windows after it. */
  lemma FitsFirst(size: u32, i: nat, chunks: seq<seq<byte>>)
    requires i < size && Fits(size, i, chunks)
    ensures chunks != [] && |chunks[0]| == Min(ChunkSize, size - i)
    ensures i + ChunkSize <= size ==> Fits(size, i + ChunkSize, chunks[1..])
    ensures size < i + ChunkSize ==> chunks[1..] == []
  {
    assert WindowOffsets(size, i) == [i as u32] + WindowOffsets(size, i + ChunkSize);
  }

  /** Writing a window-sized answer at `i` keeps the bytes before `i` and puts the answer
      right after them; the last window's answer ends the buffer. */
  lemma WindowWritten(img: seq<byte>, i: nat, c: seq<byte>, img': seq<byte>)
    requires i < |img| && |c| == Min(ChunkSize, |img| - i)
    requires img' == SliceAssign(img, i, i + ChunkSize, c)
    ensures |img'| == |img| && img'[..i] == img[..i]
    ensures i + ChunkSize <= |img| ==> img'[..i + ChunkSize] == img[..i] + c
    ensures |img| < i + ChunkSize ==> img' == img[..i] + c
  {
    SliceAssignInPlace(img, i, i + ChunkSize, c);
    assert img'[..i] == img[..i];
    if i + ChunkSize <= |img| {
      assert img'[..i + ChunkSize] == img'[..i] + img'[i..i + ChunkSize];
    } else {
      assert img' == img'[..i] + img'[i..];
    }
  }

  /** The first call of an all-answering script gets the first chunk; the rest of the
      script answers with the remaining chunks. */
  lemma AnswersStep(chunks: seq<seq<byte>>, tail: Script)
    requires chunks != []
    ensures At(Answers(chunks) + tail, 0) == Some(chunks[0])
    ensures Drop(Answers(chunks) + tail, 1) == Answers(chunks[1..]) + tail
  {
    var s := Answers(chunks) + tail;
    assert s[1..] == Answers(chunks[1..]) + tail;
  }

  /** When every window is answered at its first request, whatever the answers' lengths,
      the run completes with exactly one request per window offset of `range(i, size,
      32768)`, in increasing order, and uses exactly one answer per window. */
  lemma {:induction false} ChunkedAnsweredFirstTry(size: u32, i: nat, img: seq<byte>,
                                                    chunks: seq<seq<byte>>, tail: Script)
    requires |chunks| == |WindowOffsets(size, i)|
    ensures Chunked(size, i, img, Answers(chunks) + tail).ok
    ensures Chunked(size, i, img, Answers(chunks) + tail).offsets == WindowOffsets(size, i)
    ensures Chunked(size, i, img, Answers(chunks) + tail).rest == tail
    decreases size - i
  {
    if size <= i {
      assert Answers(chunks) + tail == tail;
    } else {
      AnswersStep(chunks, tail);
      ChunkedAnsweredAtOnce(size, i, img, Answers(chunks) + tail, chunks[0]);
      ChunkedAnsweredFirstTry(size, i + ChunkSize, SliceAssign(img, i, i + ChunkSize, chunks[0]), chunks[1..], tail);
    }
  }

  /** A 100000-byte payload is requested at offsets 0, 32768, 65536
      and 98304, and the last window is 100000 - 3 * 32768 = 1696 bytes long. */
  lemma Windows100000()
    ensures WindowOffsets(100000, 0) == [0, 32768, 65536, 98304]
    ensures WindowLength(100000, 0) == WindowLength(100000, 32768) == WindowLength(100000, 65536) == 32768
    ensures WindowLength(100000, 98304) == 1696
  {
    assert WindowOffsets(100000, 131072) == [];
    assert WindowOffsets(100000, 98304) == [98304];
    assert WindowOffsets(100000, 65536) == [65536, 98304];
    assert WindowOffsets(100000, 32768) == [32768, 65536, 98304];
  }

  // ---------------------------------------------------------------------------------------
  // Chunked mode, end to end
  // ---------------------------------------------------------------------------------------

  /** Chunked mode after a header announcing `size`: the fetch is the chunked run over a
      zero buffer of that size, after the snapshot call. */
  lemma FetchChunked(pixformat: string, framesize: string, size: u32, rest: Script, run: Run)
    requires run == Chunked(size, 0, Zeros(size), rest)
    ensures Fetch(pixformat, framesize, false, [Some(PackU32(size))] + rest)
            == Expected(if run.ok then Frame(run.img) else Absent,
                        [Called(SnapshotCall, Text(SnapshotArg(pixformat, framesize)))]
                        + ReadEvents(run.offsets),
                        run.rest)
  {
    UnpackPackU32(size);
    var s := [Some(PackU32(size))] + rest;
    assert Drop(s, 1) == rest by { assert s[1..] == rest; }
  }

  /** Chunked mode with every window answered at once and exactly: the fetch returns the
      answers laid end to end (`size` bytes), after the snapshot call and one request per
      window in increasing order. */
  lemma FetchChunkedAllFirstAttempts(pixformat: string, framesize: string, size: u32,
                                     chunks: seq<seq<byte>>, tail: Script)
    requires Fits(size, 0, chunks)
    ensures |Flatten(chunks)| == size
    ensures Fetch(pixformat, framesize, false, [Some(PackU32(size))] + Answers(chunks) + tail)
            == Expected(Frame(Flatten(chunks)),
                        [Called(SnapshotCall, Text(SnapshotArg(pixformat, framesize)))]
                        + ReadEvents(WindowOffsets(size, 0)),
                        tail)
  {
    var rest := Answers(chunks) + tail;
    ChunkedAllFirstAttempts(size, 0, Zeros(size), chunks, tail);
    assert Zeros(size)[..0] + Flatten(chunks) == Flatten(chunks);
    FetchChunked(pixformat, framesize, size, rest, Chunked(size, 0, Zeros(size), rest));
    assert [Some(PackU32(size))] + Answers(chunks) + tail == [Some(PackU32(size))] + rest;
  }

  /** Chunked mode with every window answered at its first request, whatever the answers'
      lengths: the fetch returns a buffer after the snapshot call and exactly
      `ceil(size / 32768)` window requests, at offsets 0, 32768, ... in increasing order, and
      uses no answer beyond them. */
  lemma FetchChunkedAnsweredFirstTry(pixformat: string, framesize: string, size: u32,
                                     chunks: seq<seq<byte>>, tail: Script)
    requires |chunks| == |WindowOffsets(size, 0)|
    ensures Fetch(pixformat, framesize, false, [Some(PackU32(size))] + Answers(chunks) + tail).outcome.Frame?
    ensures Fetch(pixformat, framesize, false, [Some(PackU32(size))] + Answers(chunks) + tail).events
            == [Called(SnapshotCall, Text(SnapshotArg(pixformat, framesize)))] + ReadEvents(WindowOffsets(size, 0))
    ensures |Fetch(pixformat, framesize, false, [Some(PackU32(size))] + Answers(chunks) + tail).events|
            == 1 + NumWindows(size)
    ensures Fetch(pixformat, framesize, false, [Some(PackU32(size))] + Answers(chunks) + tail).rest == tail
  {
    var rest := Answers(chunks) + tail;
    ChunkedAnsweredFirstTry(size, 0, Zeros(size), chunks, tail);
    FetchChunked(pixformat, framesize, size, rest, Chunked(size, 0, Zeros(size), rest));
    assert [Some(PackU32(size))] + Answers(chunks) + tail == [Some(PackU32(size))] + rest;
    WindowOffsetsAt(size, 0);
    ReadEventsLength(WindowOffsets(size, 0));
  }

  /** Each logged call is a `jpeg_image_read` whose eight-byte argument decodes to a window
      offset below `size` and the full chunk size of 32768. */
  ghost predicate WindowReads(events: seq<Event>, size: u32)
  {
    forall k :: 0 <= k < |events| ==>
      events[k].Called? && events[k].name == ReadCall && events[k].arg.Binary? &&
      UnpackU32Pair(events[k].arg.data).Some? &&
      UnpackU32Pair(events[k].arg.data).value.1 == ChunkSize &&
      UnpackU32Pair(events[k].arg.data).value.0 < size &&
      UnpackU32Pair(events[k].arg.data).value.0 % ChunkSize == 0
  }

  /** Chunked mode after a four-byte header: the fetch returns `None` or a buffer, and every
      call after the snapshot is a window request on the grid of the decoded size. */
  lemma FetchChunkedRequests(pixformat: string, framesize: string, s: Script, h: seq<byte>)
    requires At(s, 0) == Some(h) && |h| == 4
    ensures Fetch(pixformat, framesize, false, s).outcome.Absent? || Fetch(pixformat, framesize, false, s).outcome.Frame?
    ensures |Fetch(pixformat, framesize, false, s).events| >= 1
    ensures Fetch(pixformat, framesize, false, s).events[0] == Called(SnapshotCall, Text(SnapshotArg(pixformat, framesize)))
    ensures WindowReads(Fetch(pixformat, framesize, false, s).events[1..], UnpackU32(h).value)
  {
    var size := UnpackU32(h).value;
    var run := Chunked(size, 0, Zeros(size), Drop(s, 1));
    var e := Fetch(pixformat, framesize, false, s);
    var logged := ReadEvents(run.offsets);
    assert e.events == [Called(SnapshotCall, Text(SnapshotArg(pixformat, framesize)))] + logged;
    assert e.events[1..] == logged;
    ChunkedOffsetsInRange(size, 0, Zeros(size), Drop(s, 1));
    ReadEventsLength(run.offsets);
    forall k | 0 <= k < |logged|
      ensures logged[k] == ReadChunk(run.offsets[k])
      ensures UnpackU32Pair(ChunkRequest(run.offsets[k])) == Some((run.offsets[k], ChunkSize))
    {
      ReadEventsAt(run.offsets, k);
      ChunkRequestRoundTrip(run.offsets[k]);
    }
  }

  /** A window answered at its first request: one request, then the run from the next
      window on, over the buffer with the answer written in. */
  lemma ChunkedAnsweredAtOnce(size: u32, i: nat, img: seq<byte>, s: Script, c: seq<byte>)
    requires i < size && At(s, 0) == Some(c)
    ensures var r := Chunked(size, i + ChunkSize, SliceAssign(img, i, i + ChunkSize, c), Drop(s, 1));
            Chunked(size, i, img, s) == Run(r.ok, r.img, r.rest, [i as u32] + r.offsets)
  {
    TryWindowStep(s, MaxAttempts);
  }

  /** A window whose three requests all go unanswered ends the run there. */
  lemma ChunkedExhausted(size: u32, i: nat, img: seq<byte>, s: Script)
    requires i < size && At(s, 0).None? && At(s, 1).None? && At(s, 2).None?
    ensures Chunked(size, i, img, s) == Run(false, img, Drop(s, 3), [i as u32, i as u32, i as u32])
  {
    TryWindowStopsAtFirstAnswer(s, MaxAttempts);
    assert Repeat(i, 3) == [i as u32, i as u32, i as u32];
  }

  /** A 100000-byte payload whose window at 65536 goes unanswered three times, the other
      windows being answered at once. The fetch returns `None` after requesting 0, 32768 and then
      65536 three times, and never asks for 98304. */
  lemma ThirdWindowExhausted(pixformat: string, framesize: string, c0: seq<byte>, c1: seq<byte>, tail: Script)
    ensures Fetch(pixformat, framesize, false,
                  [Some(PackU32(100000)), Some(c0), Some(c1), None, None, None] + tail)
            == Expected(Absent,
                        [Called(SnapshotCall, Text(SnapshotArg(pixformat, framesize)))]
                        + ReadEvents([0, 32768, 65536, 65536, 65536]),
                        tail)
  {
    var rest := [Some(c0), Some(c1), None, None, None] + tail;
    ThirdWindowRun(c0, c1, tail);
    FetchChunked(pixformat, framesize, 100000, rest, Chunked(100000, 0, Zeros(100000), rest));
    assert [Some(PackU32(100000)), Some(c0), Some(c1), None, None, None] + tail
           == [Some(PackU32(100000))] + rest;
  }

  /** The chunked run behind the scenario above: two windows answered at once, the third
      exhausted. */
  lemma ThirdWindowRun(c0: seq<byte>, c1: seq<byte>, tail: Script)
    ensures Chunked(100000, 0, Zeros(100000), [Some(c0), Some(c1), None, None, None] + tail).ok == false
    ensures Chunked(100000, 0, Zeros(100000), [Some(c0), Some(c1), None, None, None] + tail).rest == tail
    ensures Chunked(100000, 0, Zeros(100000), [Some(c0), Some(c1), None, None, None] + tail).offsets
            == [0, 32768, 65536, 65536, 65536]
  {
    var s1 := [Some(c0), Some(c1), None, None, None] + tail;
    var s2 := [Some(c1), None, None, None] + tail;
    var s3 := [None, None, None] + tail;
    assert Drop(s1, 1) == s2 by { assert s1[1..] == s2; }
    assert Drop(s2, 1) == s3 by { assert s2[1..] == s3; }
    assert Drop(s3, 3) == tail by { assert s3[3..] == tail; }
    var z1 := SliceAssign(Zeros(100000), 0, 32768, c0);
    var z2 := SliceAssign(z1, 32768, 65536, c1);
    ChunkedExhausted(100000, 65536, z2, s3);
    ChunkedAnsweredAtOnce(100000, 32768, z1, s2, c1);
    ChunkedAnsweredAtOnce(100000, 0, Zeros(100000), s1, c0);
  }
}
