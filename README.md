# Remote camera frame transfer and image selection, in Dafny

This project models two parts of a small camera-slideshow program.

**The frame fetch** (`get_frame_buffer_call_back` in `camera.py`). The host pulls one JPEG
frame from an embedded camera over an RPC link:

- It calls `jpeg_image_snapshot` with the argument `"<pixformat>,<framesize>"`.
- The answer is a four-byte little-endian size header.
- It allocates a zero `bytearray` of that size.
- In **cutthrough** mode it makes one synchronising `jpeg_image_read` call with no argument. If that call is answered, it then makes one raw bulk read of the whole buffer with a 5000 ms timeout.
- In **chunked** mode it walks the offsets below the announced size in 32768-byte steps. For each window it sends `jpeg_image_read` with the eight-byte little-endian pair `(offset, 32768)`, up to three times.
- A chunked answer is written into the buffer by Python slice assignment. Three unanswered requests for one window end the fetch with `None`.

**The image selection** (`load_images_from_folder` in `main.py`):

- It keeps the listed names ending in `.jpg` or `.png`, joins each to the folder and sorts the paths.
- It raises when there are none.
- It clamps `end` to the number of files and sets `last_img` when it does so.
- It returns the slice `files[start:end]`, the flag and the end index.

Files:

- `wrappers.dfy`: `Option` and `Result`.
- `bytes.dfy`: bytes, 32-bit words, and the `struct` formats `"<I"` and `"<II"` with their round trips.
- `buffers.dfy`: Python's `bytearray`. It is a class with a resizable byte-sequence field. Slice assignment `img[lo:hi] = r` is a function, `SliceAssign`, plus the method that applies it in place.
- `rpc.dfy`: the RPC master as a class. It keeps the log of calls and bulk reads made through it and the script of answers the device will give, where `None` is a lost or timed-out call. It also holds the bytes the device would stream.
- `camera.dfy`: the specification functions of the fetch:
  - `TryWindow` is one window's retry loop.
  - `Chunked` is the window loop.
  - `Fetch` is the whole call: the outcome, the calls made, and the answers left unused.

  It also holds the imperative methods `ReadWindow`, `ReadChunks` and `GetFrameBufferCallBack`. These follow the loops of `camera.py` and are proved against those functions.
- `camera_props.dfy`: what the fetch promises, proved about the specification functions.
- `image_folder.dfy`: the selection as pure functions. It includes Python's string order and `sorted`.
- `image_folder_props.dfy`: what the selection promises.

## Model

| member | source | states |
|---|---|---|
| Bytes.UnpackU32 | camera.py:34 | `struct.unpack("<I", h)` succeeds exactly when `h` has four bytes; the value is `h[0] + 256 h[1] + 65536 h[2] + 16777216 h[3]` |
| Bytes.PackU32 | camera.py:62 | one `"<I"` field is four bytes; `UnpackPackU32` and `PackUnpackU32` prove it inverse to `UnpackU32` |
| Bytes.UnpackPackU32 | camera.py:62 | every 32-bit word packed little-endian unpacks back to itself |
| Bytes.PackUnpackU32 | camera.py:34 | every four-byte header is the packing of the value it unpacks to |
| Bytes.LeValueOfLeBytes | camera.py:62 | a number below `256^k` written as `k` little-endian bytes reads back as itself |
| Bytes.LeBytesOfLeValue | camera.py:34 | any byte string is the `|s|`-byte little-endian writing of its value |
| Bytes.PackedPairRoundTrip | camera.py:62 | `struct.pack("<II", a, b)` is eight bytes that unpack back to `(a, b)` |
| Bytes.UnpackedPairRoundTrip | camera.py:62 | every eight-byte string unpacks to a pair that packs back to it |
| Bytes.PackU32Pair | camera.py:62 | `struct.pack("<II", a, b)` is eight bytes; `PackedPairRoundTrip` and `UnpackedPairRoundTrip` prove it inverse to `UnpackU32Pair` |
| Bytes.UnpackU32Pair | camera.py:62 | the receiving side's decoding of a window request: it succeeds exactly on eight bytes, and the two round-trip lemmas tie it to `PackU32Pair` |
| Buffers.Zeros | camera.py:35 | `bytearray(size)` is `size` bytes, all zero |
| Buffers.SliceAssign | camera.py:64 | `img[lo:hi] = r` with CPython's clamping of the bounds; `SliceAssignInPlace` and `SliceAssignResizes` state what it does to the buffer |
| Buffers.SliceAssignInPlace | camera.py:64 | an answer as long as the window's part inside the buffer replaces exactly that window: same length, the window holds the answer, every other byte unchanged |
| Buffers.SliceAssignResizes | camera.py:64 | an answer of any other length changes the buffer's length |
| Buffers.ByteArray.constructor | camera.py:35 | a new buffer holds `size` zero bytes |
| Buffers.ByteArray.SetSlice | camera.py:64 | the buffer becomes `SliceAssign` of its old contents |
| Rpc.RpcMaster.Call | camera.py:30-31 | a call is logged with its name and argument and gets the next scripted answer, `None` once the script runs out; nothing else changes |
| Rpc.RpcMaster.GetBytes | camera.py:48 | a bulk read of the buffer's length with the given timeout is logged; the buffer keeps its length; answers are not consumed |
| Camera.SnapshotArg | camera.py:30-31 | the `"%s,%s"` join of the two tags; `SnapshotArgRoundTrip` proves `SplitAtComma` recovers them |
| Camera.ChunkRequest | camera.py:62 | the window request `struct.pack("<II", offset, 32768)`; `ChunkRequestRoundTrip` proves it decodes to `(offset, 32768)` |
| Camera.TryWindow | camera.py:60-70 | one window's retry loop as a function of the answer script; `TryWindowStopsAtFirstAnswer` states what it returns and uses, and `ReadWindow` is proved equal to it |
| Camera.Chunked | camera.py:58-74 | the window loop as a function of the size, the buffer and the script; `ReadChunks` is proved equal to it, and `ChunkedOffsetsInRange`, `ChunkedOffsetsOrdered`, `ChunkedGivesUp`, `ChunkedCoversWindows`, `ChunkedAnsweredFirstTry` and `ChunkedAllFirstAttempts` state its properties |
| Camera.Fetch | camera.py:13-82 | the whole fetch as a function of the arguments and the script; `GetFrameBufferCallBack` is proved equal to it, and `SnapshotUnanswered`, `BadHeaderRaises`, `Cutthrough`, `FetchChunked`, `FetchChunkedRequests`, `FetchChunkedAnsweredFirstTry`, `FetchChunkedAllFirstAttempts` and `ThirdWindowExhausted` state its outcomes |
| Camera.SplitAtComma | camera.py:30-31 | the receiving side's inverse of that join, used by `SnapshotArgRoundTrip`: splitting at the first comma gives a comma-free head and a tail that rebuild the text, or `None` when there is no comma |
| Camera.TryWindowStopsAtFirstAnswer | camera.py:60-68 | the retry loop makes at most three requests, stops at the first answer and returns it, and makes all three when none is answered; the answers before the last one used were all `None` |
| Camera.ReadWindow | camera.py:59-68 | the loop for one window makes the requests `TryWindow` says, all to `(offset, 32768)`, and writes the answer into the buffer by slice assignment only when one came; it reports whether one came |
| Camera.ReadChunks | camera.py:54-74 | the window loop leaves the buffer, log and script as `Chunked` says, and returns whether every window was answered |
| Camera.GetFrameBufferCallBack | camera.py:13-82 | the method's log and remaining answers are those of `Fetch`. It returns `None` on an unanswered snapshot or an exhausted window, raises on a bad header, and otherwise returns a fresh buffer: the chunked contents, or a buffer of the announced size in cutthrough mode |
| CameraProperties.SnapshotArgRoundTrip | camera.py:30-31 | with a comma-free pixel format, the snapshot argument splits back into the two tags |
| CameraProperties.SnapshotUnanswered | camera.py:78-82 | an unanswered snapshot returns `None` after that single call, in either mode |
| CameraProperties.BadHeaderRaises | camera.py:34 | a snapshot answer that is not four bytes raises after that single call, in either mode |
| CameraProperties.Cutthrough | camera.py:37-48 | cutthrough makes the sync call; a bulk read of the whole decoded size follows exactly when the sync call is answered; otherwise the zero buffer of that size is returned |
| CameraProperties.ChunkRequestRoundTrip | camera.py:61-62 | each window request is eight bytes decoding to `(offset, 32768)` |
| CameraProperties.ChunkedOffsetsInRange | camera.py:58 | every request goes to an offset `i + k*32768` below the size |
| CameraProperties.ChunkedOffsetsOrdered | camera.py:58-60 | request offsets never decrease, and no offset is requested more than three times |
| CameraProperties.ChunkedGivesUp | camera.py:71-74 | a run that fails ends with three requests to one offset and never asks beyond it |
| CameraProperties.ChunkedCoversWindows | camera.py:58 | a run that succeeds has requested every window offset below the size |
| CameraProperties.WindowOffsetsAt | camera.py:58 | `range(i, size, 32768)` has `ceil((size - i) / 32768)` offsets, the `k`-th being `i + k*32768` |
| CameraProperties.ChunkedAnsweredFirstTry | camera.py:58-68 | when every window is answered at its first request, whatever the answers' lengths, the run succeeds with exactly one request per offset of `range(i, size, 32768)`, in order, and uses one answer per window |
| CameraProperties.ChunkedAllFirstAttempts | camera.py:58-68 | when every window is answered at once with exactly its length, the run succeeds with one request per window in order, the answers laid end to end fill the buffer with no gap or overlap, and the rest of the script is untouched |
| CameraProperties.Windows100000 | camera.py:54-58 | a 100000-byte payload has windows at 0, 32768, 65536 and 98304, the last 1696 bytes long |
| CameraProperties.FetchChunked | camera.py:50-76 | after a header announcing `size`, a chunked fetch is the window run over `size` zero bytes, after the snapshot call |
| CameraProperties.FetchChunkedAnsweredFirstTry | camera.py:50-76 | a chunked fetch whose windows are all answered at once, whatever the lengths, returns a buffer after the snapshot call and exactly `ceil(size / 32768)` window requests in increasing order, and uses no answer beyond them |
| CameraProperties.FetchChunkedAllFirstAttempts | camera.py:50-76 | a chunked fetch whose windows are all answered at once and exactly returns the concatenated answers, `size` bytes |
| CameraProperties.FetchChunkedRequests | camera.py:58-62 | a chunked fetch returns `None` or a buffer; its first call is the snapshot, and every later call is a window request on the grid of the decoded size |
| CameraProperties.ChunkedAnsweredAtOnce | camera.py:61-68 | a window answered at its first request costs one request, and the run continues at the next window over the written buffer |
| CameraProperties.ChunkedExhausted | camera.py:60-74 | three unanswered requests to a window end the run unsuccessfully after exactly those requests |
| CameraProperties.ThirdWindowExhausted | camera.py:58-74 | a 100000-byte fetch whose window at 65536 goes unanswered three times returns `None` after requests to 0, 32768 and three to 65536, with no request to 98304 |
| CameraProperties.ThirdWindowRun | camera.py:58-74 | the window run behind that scenario fails with exactly those offsets and consumes exactly those answers |
| ImageFolder.LoadImagesFromFolder | main.py:9-32 | the function over the folder's listing; `RaisesIffNoImage`, `ClampsEnd` and `ReturnsWindow` state its error case, its end clamping and `last_img`, and the returned slice |
| ImageFolder.EndsWith | main.py:26 | `s.endswith(suffix)`: the last `len(suffix)` characters of `s` are `suffix`; it decides which names `ImageFilesMembers` says are kept |
| ImageFolder.IsImageName | main.py:26 | the comprehension's condition `f.endswith(".jpg") or f.endswith(".png")`, case-sensitive; `ImageFilesMembers` and `RaisesIffNoImage` are stated in its terms |
| ImageFolder.SortedImageFiles | main.py:25-26 | the variable `image_files`, the comprehension sorted; `SelectsImageNames`, `SelectionSorted`, `SelectionUnique` and `SelectionByName` state what it holds and in what order |
| ImageFolder.LexLe | main.py:25 | Python's `a <= b` on `str`: code point by code point, a proper prefix first; `LexLeTotal`, `LexLeTransitive`, `LexLeAntisymmetric` and `LexLeReflexive` make it a total order |
| ImageFolder.Insert | main.py:25 | one step of the sort, placing a string before the first element it is at most; `InsertSorted` proves it keeps a list ordered and adds exactly that string |
| ImageFolder.Join | main.py:25 | POSIX `os.path.join`; `SelectionByName` shows it keeps the names' order for relative names |
| ImageFolder.ImageFiles | main.py:25-26 | the list comprehension; `ImageFilesMembers` states that it holds exactly the joined `.jpg` and `.png` names |
| ImageFolder.SortStrings | main.py:25 | `sorted` on strings; `SortStringsSorted` and `SortedUnique` prove it returns the one ordered permutation of its input |
| ImageFolder.PySlice | main.py:32 | `files[start:end]` with Python's slice rules; `WindowSlice` and `NegativeStart` state the in-bounds and negative cases |
| ImageFolder.LexLeTotal | main.py:25 | any two strings are ordered one way or the other |
| ImageFolder.LexLeTransitive | main.py:25 | the string order is transitive |
| ImageFolder.LexLeAntisymmetric | main.py:25 | strings ordered both ways are equal |
| ImageFolder.LexLePrefix | main.py:25 | a common prefix does not change the order |
| ImageFolder.SortStringsSorted | main.py:25 | `sorted` returns its input in order, as a permutation |
| ImageFolder.SortedUnique | main.py:25 | two sorted permutations of one list of strings are equal |
| ImageFolder.SliceBound | main.py:32 | a slice bound is clamped to `0..len` after counting negatives from the end |
| ImageFolderProperties.ImageFilesMembers | main.py:25-26 | a path is in the comprehension exactly when it is the folder joined to a listed `.jpg` or `.png` name; there is one path per such name |
| ImageFolderProperties.SelectsImageNames | main.py:25-26 | the sorted selection holds exactly the joined image names, as a permutation of the comprehension |
| ImageFolderProperties.SelectionSorted | main.py:25 | the selected paths are in Python's string order |
| ImageFolderProperties.SelectionUnique | main.py:25 | any ordered permutation of the image paths is the selection |
| ImageFolderProperties.SelectionByName | main.py:25-26 | for a listing of relative names, the selection is the image names sorted and then joined to the folder |
| ImageFolderProperties.RaisesIffNoImage | main.py:27-28 | the function raises, with "No images found in the given folder", exactly when no listed name ends in `.jpg` or `.png` |
| ImageFolderProperties.ClampsEnd | main.py:24-31 | with fewer files than `end`, the returned end is the file count and `last_img` is set; otherwise, including a count equal to `end`, the end is unchanged and `last_img` is clear; the returned end never exceeds the count |
| ImageFolderProperties.ReturnsWindow | main.py:32 | the images are `files[start:end']` with the clamped `end'`; when `0 <= start <= end'` there are `end' - start` of them, the `k`-th being file `start + k` |
| ImageFolderProperties.WindowSlice | main.py:32 | an in-bounds Python slice is the contiguous run between its bounds |
| ImageFolderProperties.NegativeStart | main.py:32 | a negative start counts from the end of the list |

## Left out

- The connection made when `camera.py` is imported (camera.py:6-10), and the exit when it fails, are not modelled. The fetch takes the link as a parameter instead.
- The `rpc` library (`rpc_usb_vcp_master`) is not part of this model. A call is modelled by the next answer of a script, where `None` stands for any lost, corrupt or timed-out exchange. Its own framing, CRC checks and timeouts are not modelled.
- Rpc.RpcMaster.GetBytes: states only the bulk read logged, the kept length and the untouched answers, not the bytes received, because what the device streams is decided by the foreign `rpc` library and the firmware.
- Camera.GetFrameBufferCallBack: in cutthrough mode it states the returned buffer's length, not its bytes, for the same reason. It therefore cannot state that cutthrough and chunked mode deliver the same bytes for the same stream.
- The `silent` parameter only switches progress messages on and off, so it and the messages are left out.
- `get_image` (camera.py:85-91) decodes the buffer as JPEG with PIL, which is foreign code.
- `processing.py` (image stacking with OpenCV) and the `__main__` block of `main.py` are left out. The latter is the pygame display loop, event handling, timing, logging setup and command-line prompts.
- `camera.get_interface` is not part of this model.
- `pygame.image.load(f).convert()` is foreign, so each returned image stands for the path it is loaded from.
- `os.listdir` becomes the `listing` parameter. Its order is arbitrary, which is why only the sorted result is specified.
- `os.path.join` is modelled as the POSIX join; Windows path joining is left out.
- Python `str` comparison is modelled on Dafny characters, which are Unicode scalar values; surrogate code points that Python strings may also hold are left out.

### Behaviour worth noting

- A snapshot header that is not four bytes makes `struct.unpack` raise. The model's outcome is `HeaderError`, not an absent frame.
- The snapshot argument carries only the pixel format and the frame size, with no frame-rate tag.
- Every window request asks for 32768 bytes, the last one included, rather than for what remains of the payload. The answer is written by slice assignment, so an answer whose length differs from the part of the window inside the buffer changes the buffer's length (`Buffers.SliceAssignResizes`):
  - a last answer longer than the rest of the buffer grows it;
  - a shorter one shrinks it.
- In cutthrough mode the buffer is returned even when the transfer did not happen. It is the zero buffer when the sync call goes unanswered, and it is returned whatever the bulk read did.
