# Torque6 rendering registries, string utilities and stream encodings in Dafny

This project models three sequential cores of the Torque6 engine and proves
properties of the model.

- **Rendering registries** (`src/rendering/rendering.cc`): the namespace's globals and the operations on them.
  - The render-data pool hands out reset `RenderData` records, reusing deleted ones first.
  - The render-camera registry is named and reference counted, and ordered by priority with `dQsort`.
  - The render-texture registry is named and creates at most one texture per name.
  - The render-hook list.
  - `render()`, `updateWindow()` and `destroy()`, whose calls into bgfx, the scene, hooks and cameras are recorded as a trace of events.
  - `UniformData::setValue` and `UniformSet`, an insert-or-overwrite collection keyed by uniform handle.
- **String utilities** (`src/string/Utility.cc`):
  - the whitespace tokenizer: `mGetFirstNonWhitespace`, `mGetStringElementCount` and `mGetStringElement`;
  - the bit-mask parser and printer: `mConvertStringToMask` and `mConvertMaskToString`.
- **Stream encodings** (`src/io/nStream.cc`):
  - strings with a 1-byte or 4-byte length prefix;
  - CR/LF lines;
  - `ColorI` and `MatrixF` records;
  - `copyFrom`.

## Modules and files

| file | module | contents |
|---|---|---|
| `types.dfy` | `Types` | byte, 16- and 32-bit newtypes, an opaque 4-byte float, `Option`, the first-match search |
| `utility.dfy` | `Utility` | separators, maximal runs of non-separators, element count and extraction |
| `mask.dfy` | `Mask` | masks as sets of bit numbers below `MASK_BITCOUNT`, `atoi`, the string/mask pair and its round trip |
| `streams.dfy` | `Streams` | a stream as bytes, position, capacity and status; every encoding with its decoder and round trip; `copyFrom` |
| `uniforms.dfy` | `Uniforms` | `UniformData`, `UniformSet` and the "last entry wins" behaviour of `addUniformSet` |
| `pool.dfy` | `RenderPool` | `createRenderData` over a fixed-size array of records |
| `cameras.dfy` | `RenderCameras` | camera create/get/destroy, reference counts, priority order |
| `textures.dfy` | `RenderTextures` | texture create/get/destroy |
| `hooks.dfy` | `RenderHooks` | hook add/remove |
| `rendering.dfy` | `Rendering` | the globals as one context value; `render`, `updateWindow`, `destroy` |

### How the model represents the source

- **Objects and names:**
  - Names are `StringTableEntry` pointers, which the source compares by identity, so they are opaque keys (`nat`).
  - Cameras and hooks are identified the same way. A camera carries an `id` standing for its address.
- **Floats** are opaque 4-byte values (`F32`). Nothing computes with them.
- **Results passed by pointer:**
  - An out-buffer's previous contents, which a failed read leaves in place, are a `prior` parameter.
  - Functions that return a pointer into a list return the index or the record.
- **Streams:**
  - A stream is its bytes, a read/write position, a capacity and a status. The primitive `read`/`write` are not part of this model.
  - Reads take bytes from the position. A read that would run past the end fails and sets `EOS`.
  - Writes overwrite at the position and may extend the data up to the capacity. A write past the capacity fails and sets `IOError`.
  - Scalars are little-endian.
- **Callbacks:** `render()` and friends return an event trace next to the new context.
- **Sorting:** `dQsort` appears as the sequence of exchanges it made. The comparator in `compareRenderCameraPriority` returns 0 or 1 and never a negative value, so the only thing known about the result is that it is a permutation.

## Model

| member | source | states |
|---|---|---|
| `Utility.FirstNonWhitespace` | src/string/Utility.cc:37-45 | The result is a suffix of the input. Every skipped character is a space, tab or newline. The result is empty or starts with none of them. |
| `Utility.RunsAreMaximalRuns` | src/string/Utility.cc:198-282 | The runs the scanner reports are exactly the maximal runs of non-separators: each is bounded by separators or the string's ends, they are in order and disjoint, and every non-separator lies in one. |
| `Utility.GetStringElementCount` | src/string/Utility.cc:198-282 | The element count equals the number of maximal non-separator runs. The empty string has none. |
| `Utility.ScanRun` | src/string/Utility.cc:242-270 | The inner scan stops at the end of the current run. It steps past the separator ending the run unless the run ends the string. |
| `Utility.GetStringElement` | src/string/Utility.cc:78-194 | For an index below the count: copy mode gives the run's text, plus its terminating separator when that separator is the string's last character; pointer mode gives the suffix from the run's start. A higher index gives no element (the source asserts and returns ""). |
| `Mask.ConvertStringToMask` | src/string/Utility.cc:286-321 | A string with no elements, or exactly "all" up to case, gives every bit. Exactly "none" or "off" gives no bits. Otherwise bit b is set iff some element parses to b, and out-of-range values are skipped. |
| `Mask.SetBitsFromSpec` | src/string/Utility.cc:325-349 | The bits the printer visits are exactly the mask's bits below `MASK_BITCOUNT`, strictly ascending. |
| `Mask.ConvertMaskToString` | src/string/Utility.cc:325-349 | The empty mask prints "none". Any other mask prints the decimal numbers of its set bits, ascending, separated by single spaces. |
| `Mask.AtoiOfDecimal` | src/string/Utility.cc:308 | `atoi` reads back every printed bit number. |
| `Mask.ElementsOfJoin` | src/string/Utility.cc:303-320 | Splitting words joined by single spaces gives back those words. |
| `Mask.MaskRoundTrip` | src/string/Utility.cc:286-349 | Parsing the printed form of any mask gives that mask back. |
| `Streams.DecodeEncodeU32` | src/io/nStream.cc:106-126 | Decoding the 4-byte encoding of a length gives the length back. |
| `Streams.EncodeInjective` | src/io/nStream.cc:106-126 | Distinct lengths have distinct encodings. |
| `Streams.ReadString` | src/io/nStream.cc:91-97 | A read succeeds iff the length byte and that many bytes remain. The result is those bytes plus a NUL, and the position moves past them. |
| `Streams.WriteStringWrites` | src/io/nStream.cc:67-76 | When the record fits, writeString lays down one length byte, min(strlen, maxLen) truncated to 8 bits (0 for a null string), then that many leading bytes. |
| `Streams.StringRoundTrip` | src/io/nStream.cc:67-97 | When the clamped length is at most 255, reading back what writeString wrote gives the clamped string NUL-terminated. It consumes exactly 1 + len bytes. |
| `Streams.WriteStringLengthWraps` | src/io/nStream.cc:67-97 | With maxLen 256, a 256-byte non-NUL string is written as 257 bytes whose length byte is 0. readString at the same place then succeeds with the empty string and stops after one byte. |
| `Streams.LongStringLength` | src/io/nStream.cc:119-126 | The long-string length is the string's length clamped to `maxStringLen`. |
| `Streams.WriteLongStringWrites` | src/io/nStream.cc:119-126 | When the record fits, writeLongString lays down a 4-byte length and then that many bytes of the string. |
| `Streams.LongStringRoundTrip` | src/io/nStream.cc:106-126 | Reading back with the same bound gives the clamped string NUL-terminated. It consumes 4 + len bytes. |
| `Streams.LongStringTooLong` | src/io/nStream.cc:106-117 | A stored length above the bound sets `IOError` and fails. Only the 4 length bytes are consumed; no payload is read. |
| `Streams.SkipCRsSpec` | src/io/nStream.cc:135-143 | The first loop of readLine skips CRs. It stops with nothing at an LF or a failed read, and otherwise with the first character of the line. |
| `Streams.LineLoopSpec` | src/io/nStream.cc:145-163 | The second loop of readLine collects the line's non-CR characters up to the LF or the end, truncated to the buffer. |
| `Streams.ReadLineSpec` | src/io/nStream.cc:128-164 | readLine returns the current line up to LF, CRs dropped, truncated to bufferSize-1 characters. It holds no CR or LF. When it fits, the stream moves past the line and its LF. |
| `Streams.LineRoundTrip` | src/io/nStream.cc:128-170 | A line without CR or LF that writeLine wrote, followed by CR LF, reads back unchanged, consuming its length + 2 bytes. |
| `Streams.WriteColorI` | src/io/nStream.cc:172-180 | The channels are written red, green, blue, alpha. The result is true iff any channel was written, i.e. iff one byte fits. |
| `Streams.ReadColorI` | src/io/nStream.cc:188-196 | Channel k comes from the k-th byte when it remains, and otherwise keeps its prior value. The result is true iff any channel was read. |
| `Streams.ColorIRoundTrip` | src/io/nStream.cc:172-196 | A colour written and read back is the same colour. |
| `Streams.WriteF32sWrites` | src/io/nStream.cc:244-252 | When all entries fit they are written in index order, 4 bytes each. The result ORs the writes' results, so it is true iff there is an entry and the first one fits. |
| `Streams.ReadF32sHeld` | src/io/nStream.cc:254-262 | Entries are read back in index order. |
| `Streams.MatrixRoundTrip` | src/io/nStream.cc:244-262 | A matrix written and read back is the same 16 entries, consuming 64 bytes. |
| `Streams.CopyFrom` | src/io/nStream.cc:207-224 | copyFrom succeeds iff the source is at `EOS` or the remaining bytes fit the destination. On success they are copied behind the destination's position. On failure a whole number of 1024-byte chunks was copied and the destination reports `IOError`. |
| `Uniforms.SetFloat` | src/rendering/rendering.cc:476-480 | Handle, count and matrix storage are untouched. The data handed on is the value padded with three zeros. |
| `Uniforms.SetPoint2` | src/rendering/rendering.cc:488-492 | Handle, count and matrix storage are untouched. The data is (x, y, 0, 0). |
| `Uniforms.SetPoint3` | src/rendering/rendering.cc:494-498 | Handle, count and matrix storage are untouched. The data is (x, y, z, 0). |
| `Uniforms.SetPoint4` | src/rendering/rendering.cc:500-504 | Handle, count and matrix storage are untouched. The data is the vector. |
| `Uniforms.SetMatrix` | src/rendering/rendering.cc:482-486 | Handle, count and vector storage are untouched. The data is the 16 matrix entries. |
| `Uniforms.Create` | src/rendering/rendering.cc:520-524 | create gives an empty list that the set owns. |
| `Uniforms.Clear` | src/rendering/rendering.cc:526-530 | clear leaves no entries. It keeps a missing list missing and keeps ownership. |
| `Uniforms.IsEmpty` | src/rendering/rendering.cc:532-536 | isEmpty is true iff the set has no entries, a missing list counting as none. |
| `Uniforms.AddDefaultUniform` | src/rendering/rendering.cc:538-543 | addUniform() appends exactly one default uniform. A list it creates when missing is owned by the set; an existing list keeps its ownership. |
| `Uniforms.AddUniformSpec` | src/rendering/rendering.cc:545-563 | With an entry of the same handle, the first one takes the new vector and matrix values in place, keeping its count. The size and the other entries are unchanged. Otherwise the uniform is appended. |
| `Uniforms.AddUniformKeepsUnique` | src/rendering/rendering.cc:545-563 | addUniform keeps handles unique and adds exactly the new uniform's handle. |
| `Uniforms.LookupAfterAdd` | src/rendering/rendering.cc:545-563 | After addUniform(u), u's handle maps to u's values and every other handle maps to what it did before. |
| `Uniforms.AddAllLastWins` | src/rendering/rendering.cc:565-569 | Adding a list in order keeps handles unique. Each handle ends with the values of the list's last entry for it. |
| `Uniforms.AddUniformSetSpec` | src/rendering/rendering.cc:565-569 | addUniformSet keeps handles unique. Each of the other set's handles ends with the values of its last entry there; other handles are untouched. |
| `Uniforms.AddTwiceKeepsOne` | src/rendering/rendering.cc:545-563 | Adding two uniforms with one handle leaves a single entry, with the second one's values. |
| `RenderPool.CreateRenderData` | src/rendering/rendering.cc:127-166 | The first deleted record is reused and the count is unchanged. When none is deleted, record `count` is used and the count grows by one. The record is reset (no flags, invalid handles, null pointers, default state) and no other record changes. |
| `Types.FirstIndex` | src/rendering/rendering.cc:290-297 | The search the registries share returns the index of the first element with the key, or none exactly when no element has it. |
| `RenderCameras.GetRenderCamera` | src/rendering/rendering.cc:288-298 | The lookup finds a camera iff one has the name, and returns one with that name. |
| `RenderCameras.CreateSpec` | src/rendering/rendering.cc:270-286 | With that name present, that camera gains one reference and nothing else changes. Otherwise exactly one camera with that name, path and one reference is appended. |
| `RenderCameras.CreateKeepsValid` | src/rendering/rendering.cc:270-286 | Creating keeps identities and names unique and every count at least one. |
| `RenderCameras.DestroyRenderCamera` | src/rendering/rendering.cc:310-326 | Destroy by pointer returns true iff the camera is registered. On false nothing changes. |
| `RenderCameras.DestroyRenderCameraByName` | src/rendering/rendering.cc:328-347 | Destroy by name returns true iff a camera has the name. On false nothing changes. |
| `RenderCameras.ReleaseSpec` | src/rendering/rendering.cc:310-347 | A destroy decrements the count in place while it stays at least one. Otherwise it removes exactly that camera, keeping the others' order. |
| `RenderCameras.ReleaseKeepsValid` | src/rendering/rendering.cc:310-347 | Destroying keeps the registry valid. |
| `RenderCameras.DestroyUndoesCreate` | src/rendering/rendering.cc:270-347 | A destroy by name right after a create by that name restores the list. |
| `RenderCameras.CreatesCount` | src/rendering/rendering.cc:270-286 | k creates under one name raise its reference count by k. |
| `RenderCameras.DestroysCount` | src/rendering/rendering.cc:328-347 | k destroys under one name lower its reference count by k; a count of 0 means removed. |
| `RenderCameras.CreateDestroyBalance` | src/rendering/rendering.cc:270-347 | After k creates, the camera stays registered through k-1 destroys, and k destroys restore its original count. |
| `RenderCameras.ComparatorCannotTellLess` | src/rendering/rendering.cc:82-87 | For a lower-priority a, the comparator ranks a against b the same as a against itself (0). It ranks b above a, so it is not antisymmetric as a qsort comparator must be. |
| `RenderCameras.GetPriorityRenderCamera` | src/rendering/rendering.cc:301-308 | The result is null iff there are no cameras. Otherwise the list is permuted and its new last camera, which is registered, is returned. |
| `RenderCameras.ApplySwapsKeepsValid` | src/rendering/rendering.cc:301-308 | Sorting keeps identities and names unique. |
| `RenderCameras.PriorityCameraIsHighest` | src/rendering/rendering.cc:301-308 | When the sort does leave the list ascending, the camera returned has the highest priority. |
| `RenderTextures.GetRenderTexture` | src/rendering/rendering.cc:428-438 | The lookup finds a texture iff one has the name, and returns one with that name. |
| `RenderTextures.CreateSpec` | src/rendering/rendering.cc:380-426 | Creating returns the texture registered under the name. An existing one is returned with the list unchanged. Otherwise a texture with the new handle and size is appended. |
| `RenderTextures.CreateRenderTextureRatio` | src/rendering/rendering.cc:380-402 | A new ratio-sized texture records the window size it is given. |
| `RenderTextures.CreateRenderTextureSized` | src/rendering/rendering.cc:404-426 | A new fixed-size texture records the size asked for. |
| `RenderTextures.CreateIdempotent` | src/rendering/rendering.cc:380-426 | A second create under the same name changes nothing and returns the first texture, whatever size or handle it asks for. |
| `RenderTextures.CreateKeepsUnique` | src/rendering/rendering.cc:380-426 | Creating keeps texture names unique. |
| `RenderTextures.DestroyRenderTexture` | src/rendering/rendering.cc:440-451 | Destroy returns true iff a texture has the name. It then removes the first texture with that name; the others keep their order. On false nothing changes. |
| `RenderTextures.DestroyRemovesName` | src/rendering/rendering.cc:440-451 | With unique names, no texture of that name remains after destroy. Every other texture does remain. |
| `RenderTextures.DestroyUndoesCreate` | src/rendering/rendering.cc:380-451 | Destroying a texture just created under a new name restores the list. |
| `RenderHooks.AddRenderHook` | src/rendering/rendering.cc:353-356 | The hook is appended after the existing ones, which keep their order. |
| `RenderHooks.RemoveRenderHook` | src/rendering/rendering.cc:358-369 | Remove returns true iff the hook is listed. It then removes its first occurrence, and the other hooks keep their order. On false nothing changes. |
| `RenderHooks.RemoveUndoesAdd` | src/rendering/rendering.cc:353-369 | Removing a hook just added, not listed before, restores the list. |
| `Rendering.Init` | src/rendering/rendering.cc:40-56 | The globals start with no cameras, textures or hooks, an empty pool of the given capacity, a 0×0 window and no size change. |
| `Rendering.RenderWhilePreprocessing` | src/rendering/rendering.cc:90-99 | While the scene preprocesses, a frame only resets the views: no hook or camera callback, no change. |
| `Rendering.RenderFrame` | src/rendering/rendering.cc:90-116 | A full frame runs in order: reset views, each hook's begin in list order, one render per camera in sorted order, each hook's end in list order. Only the camera order changes. |
| `Rendering.RenderEachCameraOnce` | src/rendering/rendering.cc:90-116 | Each registered camera is rendered exactly once. The last one rendered is the camera getPriorityRenderCamera returns after the same sort. |
| `Rendering.IdsPermutation` | src/rendering/rendering.cc:104 | Sorting permutes the cameras' identities. |
| `Rendering.CreateRenderTexture` | src/rendering/rendering.cc:380-402 | On the globals: a new ratio-sized texture records the stored window size and is appended. An existing one is returned. Nothing but the texture list changes. |
| `Rendering.CreateAfterResizeFollowsWindow` | src/rendering/rendering.cc:68-80 | A texture created after updateWindow(width, height) has that size and is registered under its name. |
| `Rendering.UpdateWindowSpec` | src/rendering/rendering.cc:68-80 | The new size is recorded and nothing else changes. `windowSizeChanged` holds iff the size differs. Graphics are reset iff it changed. |
| `Rendering.UpdateWindowIdempotent` | src/rendering/rendering.cc:68-80 | A second update to the same size reports no change and resets nothing. |
| `Rendering.Destroy` | src/rendering/rendering.cc:58-66 | destroy releases the graphics texture of exactly the render textures holding a valid handle, once each, in list order, and nothing else. |
| `Rendering.DestroyEventsInOrder` | src/rendering/rendering.cc:58-66 | The n-th release is that of the n-th texture holding a valid handle, and there are as many releases as such textures. |
| `Rendering.DestroyReleasesOnlyTextures` | src/rendering/rendering.cc:58-66 | Every handle destroy releases belongs to some render texture. |

## Left out

- **Constants from headers that are not part of this model:**
  - `MASK_BITCOUNT` is taken as 32 and `MASK_ALL` as every bit below it.
  - bgfx's `invalidHandle` is taken as 0xFFFF.
  - The `BGFX_STATE_*` bits (RGB write 0x1, alpha write 0x2, depth write 0x4, depth test "less" 0x10, cull CW 0x10_0000_0000) are taken as given.
  - `RenderData::Deleted` is bit 0 of the flags.
  - The initial camera render priority is taken as 0.
  - The pool size `TORQUE_MAX_RENDER_DATA` is a parameter.
- The stream's `read`/`write` primitives, the byte layout of scalars (taken as little-endian) and `getStatusString` are not part of this model. The stream is a byte sequence as described above.
- Float geometry (`worldToScreen`, `screenToWorld`, `closestPointsOnTwoLines`) is left out because it rests on IEEE arithmetic and bx matrix routines. The same goes for the float parsing in `mGetStringElementVector`, `mGetStringElementVector3D` and `mConvertStringToPoint3F`, the `ColorF` conversions, `Transform` and `Point3F` read/write, and `readSTString`.
- `writeFormattedBuffer` (`vsprintf`) and the OSX branch of `readLine`, which seeks back after a CR, are left out.
- Static result buffers and pointer aliasing are left out:
  - `mGetStringElement`'s 4096-byte buffer and the mask string's 128-byte buffer;
  - `UniformData::_dataPtr`, modelled as a tag naming the storage last written.
- **Side effects and callbacks:**
  - bgfx calls (`createTexture2D`, `destroyTexture`, `resetViews`, `Graphics::reset`), `Scene::refresh`, `registerObject`/`deleteObject` and the bodies of camera and hook callbacks appear only as events or as handles passed in.
  - `Scene::isPreprocessingActive` is a parameter of `Render`.
- Console warnings for skipped mask bits and the fatal assertion in `mGetStringElement` are not modelled; the assertion's fall-through result is modelled as `None`.
- `RenderPool.CreateRenderData`: requires a free record (one deleted, or `count` below the pool size). The source does not check, and writes past the array otherwise.
- `Uniforms.AddUniformSet`: requires the other set's list to exist. The source dereferences it unchecked.
- `Streams.ReadLine`: requires `bufferSize >= 1`; a zero size underflows in the source.
- `Streams.ReadLineSpec`: states the position after a line only when the line fits the buffer. A longer line also consumes, and drops, the one character past the truncation point.
- `Streams.StringRoundTrip`: holds only when the clamped length, `min(strlen, maxLen)`, fits in one byte. `writeString` truncates the length to 8 bits, as `Streams.WriteStringLengthWraps` shows.
- `Streams.ReadString`: leaves the buffer contents after a failed read unstated, because they depend on the unseen primitive.
- `Mask.ConvertStringToMask`: `atoi` is modelled on unbounded integers. A decimal too large for an `int` would overflow in the source and is not modelled.
- `Mask.ConvertStringToMask`: `dStricmp` compares the whole string, so " all " with surrounding blanks is not the name "all". The model follows that.
- `RenderCameras.GetPriorityRenderCamera`: the highest-priority claim holds only when the sort happens to order the list. The comparator cannot tell "less" from "equal" (`RenderCameras.ComparatorCannotTellLess`), so `dQsort` is not bound to.
- `Uniforms.UniformData`: a new uniform's vector and matrix storage is zero in the model, where the source leaves it uninitialised. This is observable. `addUniform(u)` on a listed handle copies `u`'s storage into the entry and keeps the entry's `_dataPtr`. A `u` whose storage was never written then gives the entry indeterminate values where the model gives zeros.
- `RenderCameras.INITIAL_REF_COUNT`: the `RenderCamera` constructor is not part of this model. Its `refCount` is taken to start at 0, so a camera created once holds one reference.
- C strings in `Streams` are modelled as byte sequences. A string's text is its bytes before the first NUL, as `Streams.Strlen` states. Bytes after a NUL in the sequence do not count, and a sequence with no NUL is read to its end.
- `Utility` and `Mask` take a string as the text before its NUL terminator, a `seq<char>` that holds no NUL. A `'\0'` inside the sequence is treated as an ordinary non-separator character, where the source's scans stop at it.
