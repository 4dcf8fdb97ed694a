# VMCI queue-pair memory and copy/paste string helpers in Dafny

This project models two parts of open-vm-tools and proves properties of the models.

**`VmciKernelIf`** (`vmci_kernel_if.dfy`) models the queue-pair memory layer of the Linux VMCI driver:

- **Queues.** A queue is an ordered array of separately allocated physical pages. `AllocQueueKVA` gets `CEILING(size, PAGE_SIZE)` pages from a kernel allocator, or hands every page back and fails. `FreeQueueKVA` releases the pages and then the record.
- **The allocator.** The kernel allocator is a class with counters of free pages and free blocks. It fails when a counter is zero.
- **PPN sets.** `AllocPPNSet` turns a produce queue and a consume queue into two page-number lists. Entry 0 of each list is the header's translation; entries 1..n-1 are the data pages' frame numbers, in order. Each data entry is stored in a 32-bit element, and the build fails when a number does not fit.
- **Freeing and publishing a set.** `FreePPNSet` releases both lists and zeroes the set. `PopulatePPNList` lays both lists, back to back, into the hypercall buffer.
- **Page-walking copy.** `__VMCIMemcpyToQueue` and `__VMCIMemcpyFromQueue` copy between a flat buffer or an iovec and a queue, one page-bounded chunk at a time. Four exported wrappers sit on top of them.
- **The well-known-ID guard.** `VMCIWellKnownID_AllowMap` decides whether a caller may map a well-known ID.

A queue keeps a ghost `Contents`: the byte sequence its pages spell in order. `Valid()` ties every byte of `Contents` to the page byte it lives in. The copy methods are specified by what they do to `Contents`: the copied range is spliced in and every other byte stays the same.

The source's copy loop tests the loop-invariant `isIovec` flag on every pass. The model tests it once (`CopyToQueue`, `CopyFromQueue`) and then runs one loop per buffer kind. Both forms perform the same chunk sequence.

**`CopyPasteUIX11`** (`copy_paste_uix11.dfy`) models four string helpers of the X11 copy/paste plugin:

- **`GetLastDirName`** finds the last directory name of a path.
- **`GetNextPath`** does two things:
  - it cuts the next path out of a NUL-delimited list;
  - it escapes, in place, the bytes that section "Encoding reserved characters" of RFC 1630 reserves.
- **URI-list assembly** builds the list that the file-contents request callback hands to the clipboard.
- **Prefix stripping** cleans the text of a pasted selection before the file list is read from it.

Each helper is a method with the source's loop, proved equal to a specification function. The lemmas state what the functions promise: the decoding round trip, no double escaping, the tokenisation, and the shape of the lists.

## Model

| member | source | states |
|---|---|---|
| VmciKernelIf.NumPagesIsLeastCover | modules/linux/vmci/vmciKernelIf.c:835 | CEILING(size, PAGE_SIZE) pages cover `size` bytes, one page fewer would not, and a 0-byte queue needs no page |
| VmciKernelIf.Allocator.AllocPage | modules/linux/vmci/vmciKernelIf.c:846 | an allocation fails exactly when no page is free; otherwise it returns a fresh page of PAGE_SIZE bytes and records it as live |
| VmciKernelIf.Allocator.FreePage | modules/linux/vmci/vmciKernelIf.c:852 | freeing a live page removes it from the live set and returns it to the free count |
| VmciKernelIf.Allocator.AllocQueueRecord | modules/linux/vmci/vmciKernelIf.c:838 | the queue record fails exactly when no block is free; otherwise it is fresh, with `numPages` empty slots |
| VmciKernelIf.Allocator.AllocPpnList | modules/linux/vmci/vmciKernelIf.c:937-947 | a list allocation fails exactly when no block is free; otherwise it returns a fresh array of `n` entries |
| VmciKernelIf.Allocator.FreeBlock | modules/linux/vmci/vmciKernelIf.c:855 | freeing a live block removes it from the live set and returns it to the free count |
| VmciKernelIf.AllocQueueKVA | modules/linux/vmci/vmciKernelIf.c:833-861 | the call fails exactly when the record or one of the `CEILING(size, PAGE_SIZE)` pages cannot be had; on failure, every allocator counter and live set is as before, so nothing leaks; on success the queue holds that many fresh pages and is valid, and the allocator records exactly those pages and the record |
| VmciKernelIf.FreeQueueKVA | modules/linux/vmci/vmciKernelIf.c:883-896 | a null queue changes nothing; otherwise exactly the queue's `CEILING(size, PAGE_SIZE)` pages and then its record are returned to the allocator |
| VmciKernelIf.NarrowedKeepsFittingNumbers | modules/linux/vmci/vmciKernelIf.c:955-985 | when every data page number fits, storing into 32-bit elements keeps entries 1..n-1 exactly; entry 0 is stored truncated |
| VmciKernelIf.FillPpnList | modules/linux/vmci/vmciKernelIf.c:955-985 | one list-filling loop: entry 0 is the header translation, entry i is the frame of data page i-1, and it reports success exactly when every data entry fits its element |
| VmciKernelIf.AllocAndFillLists | modules/linux/vmci/vmciKernelIf.c:937-996 | the lists are allocated and filled; the result is NO_MEM when either allocation fails, INVALID_ARGS when a data page number overflows, and success otherwise; on failure no list stays allocated, and on success both lists hold the page numbers |
| VmciKernelIf.AllocPPNSet | modules/linux/vmci/vmciKernelIf.c:919-997 | INVALID_ARGS when either queue or the set is null or either page count is 0, then ALREADY_EXISTS for an initialised set, then NO_MEM, then INVALID_ARGS for an overflowing page number; on any failure the set is untouched and no list stays allocated; on success the set is initialised, records both counts, and holds both page-number lists |
| VmciKernelIf.FreePPNSet | modules/linux/vmci/vmciKernelIf.c:1017-1029 | both lists are released only if the set was initialised, and the set is zeroed either way |
| VmciKernelIf.DecodeEncodePpn | modules/linux/vmci/vmciKernelIf.c:1053-1058 | the four little-endian bytes of a list element decode back to that element |
| VmciKernelIf.EncodePpnsAt | modules/linux/vmci/vmciKernelIf.c:1053-1058 | byte j of a list's image is byte j mod 4 of element j / 4 |
| VmciKernelIf.DecodeEncodePpns | modules/linux/vmci/vmciKernelIf.c:1053-1058 | a whole list's image decodes back to the list |
| VmciKernelIf.DecodeConcat | modules/linux/vmci/vmciKernelIf.c:1053-1058 | decoding two images placed back to back gives the two lists back to back |
| VmciKernelIf.PpnPayloadLayout | modules/linux/vmci/vmciKernelIf.c:1053-1058 | the buffer image is `(np + nc) * 4` bytes and decodes to the produce list followed by the consume list, with no gap |
| VmciKernelIf.PopulatePPNList | modules/linux/vmci/vmciKernelIf.c:1050-1061 | it returns success; the first `(np + nc) * 4` bytes of the buffer are the produce entries then the consume entries; every byte after them is unchanged |
| VmciKernelIf.IoVec.FromIovec | modules/linux/vmci/vmciKernelIf.c:1110-1118 | reading `len` bytes from the iovec fails with -EFAULT, cursor unchanged, when fewer than `len` remain; otherwise it yields the next `len` bytes and advances the cursor by `len` |
| VmciKernelIf.IoVec.ToIovec | modules/linux/vmci/vmciKernelIf.c:1174-1182 | writing bytes into the iovec fails with -EFAULT, nothing changed, when they do not fit; otherwise they replace the bytes at the cursor and the cursor moves past them |
| VmciKernelIf.NextChunk | modules/linux/vmci/vmciKernelIf.c:1096-1107 | the chunk starts at queue byte `off + copied`, lies inside one page, is non-empty, and its length is the smaller of the room left in the page and the bytes left to copy |
| VmciKernelIf.InChunk | modules/linux/vmci/vmciKernelIf.c:1096-1098 | a queue byte lies in the chunk exactly when its page index is the chunk's page and its page offset lies in the chunk |
| VmciKernelIf.WriteChunk | modules/linux/vmci/vmciKernelIf.c:1099-1124 | writing one chunk into its page splices the chunk into the queue contents at its position and keeps the queue valid |
| VmciKernelIf.ReadChunk | modules/linux/vmci/vmciKernelIf.c:1160-1187 | reading one chunk from its page yields the queue contents at that position of the range |
| VmciKernelIf.IovecChunkToQueue | modules/linux/vmci/vmciKernelIf.c:1095-1125 | one pass of the iovec loop: a non-empty chunk no longer than what is left; -EFAULT with queue and cursor untouched exactly when the iovec cannot supply the chunk; otherwise one more chunk of the iovec's bytes is in place in the queue and the cursor has moved past it |
| VmciKernelIf.CopyBufferToQueue | modules/linux/vmci/vmciKernelIf.c:1093-1125 | the flat-buffer loop: the queue contents become the old contents with the first `size` source bytes spliced in at `queueOffset` |
| VmciKernelIf.CopyIovecToQueue | modules/linux/vmci/vmciKernelIf.c:1093-1127 | the iovec loop: it returns -EFAULT, at once, exactly when the iovec holds fewer than `size` bytes; with err == 0, the iovec's next `size` bytes are spliced into the queue and the cursor has advanced by `size`; in every case no byte outside `[queueOffset, queueOffset + size)` changes |
| VmciKernelIf.CopyToQueue | modules/linux/vmci/vmciKernelIf.c:1087-1128 | __VMCIMemcpyToQueue: a flat source always succeeds with its bytes spliced in; an iovec source behaves as CopyIovecToQueue; queue bytes outside the range are unchanged either way |
| VmciKernelIf.WriteFlat | modules/linux/vmci/vmciKernelIf.c:1184 | the flat `memcpy` into the destination: the bytes land at the given position and no other byte of the buffer changes |
| VmciKernelIf.QueueChunkToBuffer | modules/linux/vmci/vmciKernelIf.c:1159-1189 | one pass of the flat loop: a non-empty chunk no longer than what is left, after which one more chunk of the queue range is in place in the destination and the rest of it is unchanged |
| VmciKernelIf.QueueChunkToIovec | modules/linux/vmci/vmciKernelIf.c:1159-1189 | one pass of the iovec loop: a non-empty chunk no longer than what is left; -EFAULT exactly when the iovec has no room for the chunk; otherwise one more chunk of the queue range is at the cursor, which has moved past it |
| VmciKernelIf.CopyQueueToBuffer | modules/linux/vmci/vmciKernelIf.c:1157-1191 | the flat-buffer loop: the destination gets queue bytes `[queueOffset, queueOffset + size)` at `start`, and every other destination byte is unchanged |
| VmciKernelIf.CopyQueueToIovec | modules/linux/vmci/vmciKernelIf.c:1157-1191 | the iovec loop: it returns -EFAULT exactly when the iovec has less than `size` bytes of room; otherwise the queue range is written at the cursor, which advances by `size` |
| VmciKernelIf.CopyFromQueue | modules/linux/vmci/vmciKernelIf.c:1151-1192 | __VMCIMemcpyFromQueue: a flat destination always succeeds with the queue range written at its start; an iovec destination behaves as CopyQueueToIovec |
| VmciKernelIf.MemcpyToQueue | modules/linux/vmci/vmciKernelIf.c:1214-1222 | the flat wrapper copies `src[srcOffset..srcOffset + size]` into the queue range and returns 0 |
| VmciKernelIf.MemcpyFromQueue | modules/linux/vmci/vmciKernelIf.c:1244-1252 | the flat wrapper writes the queue range at `dest + destOffset` and returns 0 |
| VmciKernelIf.MemcpyToQueueV | modules/linux/vmci/vmciKernelIf.c:1274-1286 | the iovec wrapper ignores `srcOffset` and copies from the iovec's cursor, with the error behaviour of CopyIovecToQueue; the queue keeps its length and every byte outside `[queueOffset, queueOffset + size)`, on failure too |
| VmciKernelIf.MemcpyFromQueueV | modules/linux/vmci/vmciKernelIf.c:1308-1319 | the iovec wrapper ignores `destOffset` and copies to the iovec's cursor, with the error behaviour of CopyQueueToIovec |
| VmciKernelIf.RoundTrip | modules/linux/vmci/vmciKernelIf.c:1214-1252 | copying `size` bytes from any source offset into a queue range and reading the same range back to any destination offset returns those bytes there, and leaves the rest of the destination as it was; the queue stays valid over the same pages and holds the bytes spliced in at the range |
| VmciKernelIf.RoundTripV | modules/linux/vmci/vmciKernelIf.c:1274-1319 | the same round trip through two iovecs fails with -EFAULT exactly when the source is short or the destination lacks room; otherwise the destination receives the source's next `size` bytes at its cursor; the source's bytes are unchanged and the queue stays valid over the same pages |
| VmciKernelIf.AllowMapOnlyTrustedMatters | modules/linux/vmci/vmciKernelIf.c:1349-1353 | of the privilege flags only the TRUSTED bit bears on the decision: any flags allow a mapping exactly when their TRUSTED bit alone does |
| VmciKernelIf.AllowMapUnreserved | modules/linux/vmci/vmciKernelIf.c:1349-1353 | an ID at or above VMCI_RESERVED_RESOURCE_ID_MAX may be mapped whatever the flags |
| VmciKernelIf.AllowMapTrusted | modules/linux/vmci/vmciKernelIf.c:1349-1353 | a TRUSTED caller may map every ID, and an untrusted caller no ID below VMCI_RESERVED_RESOURCE_ID_MAX |
| VmciKernelIf.AllowMapMonotone | modules/linux/vmci/vmciKernelIf.c:1349-1353 | adding privilege flags never turns an allowed mapping into a refused one |
| CopyPasteUIX11.RelativePathHasNoDirName | open-vm-tools/services/plugins/dndcp/copyPasteUIX11.cpp:948-950 | a path that does not start with '/' has no last directory name |
| CopyPasteUIX11.LastDirNameShape | open-vm-tools/services/plugins/dndcp/copyPasteUIX11.cpp:943-958 | a non-empty result is the text strictly between the last '/' and the end, with one trailing '/' ignored; it holds no '/' |
| CopyPasteUIX11.GetLastDirName | open-vm-tools/services/plugins/dndcp/copyPasteUIX11.cpp:937-958 | the backward scan, with a signed `end` as the finding below corrects it, returns LastDirName of the path: "" for a short or relative path (now including "" and "/"), otherwise the run after the last separator before the name end |
| CopyPasteUIX11.LastDirEndAgrees | open-vm-tools/services/plugins/dndcp/copyPasteUIX11.cpp:943-946 | on every non-empty path other than "/", the size_t `end` of the source is the last index of the name |
| CopyPasteUIX11.LastDirEndAsWritten | open-vm-tools/services/plugins/dndcp/copyPasteUIX11.cpp:943-946 | the source's size_t `end` for a non-empty path: it stays below SIZE_MAX + 1, and it is an index inside the path exactly when the path is not "/" |
| CopyPasteUIX11.ShortPathOverrunsAsWritten | open-vm-tools/services/plugins/dndcp/copyPasteUIX11.cpp:943-955 | on "/" the size_t `end` wraps to SIZE_MAX; that passes both guards, and the scan starts past the end of the string; on "" already `bytes() - 1` is SIZE_MAX, so `str[end]` is read past the end |
| CopyPasteUIX11.SegmentEnd | open-vm-tools/services/plugins/dndcp/copyPasteUIX11.cpp:990 | the end of a path segment is the first NUL at or after the index, or the end of the string; no NUL lies before it |
| CopyPasteUIX11.EscapeAt | open-vm-tools/services/plugins/dndcp/copyPasteUIX11.cpp:1006-1009 | the `replace` and two `insert` calls turn a reserved byte into '%', its high hex digit and its low hex digit, in place |
| CopyPasteUIX11.EscapeStep | open-vm-tools/services/plugins/dndcp/copyPasteUIX11.cpp:1000-1013 | escaping the byte under the cursor and stepping past what was written extends the escaped part by exactly that byte |
| CopyPasteUIX11.EscapeNext | open-vm-tools/services/plugins/dndcp/copyPasteUIX11.cpp:990-1013 | one pass of the loop keeps the escaped prefix, the escaped part and the untouched rest in step |
| CopyPasteUIX11.EscapeSegment | open-vm-tools/services/plugins/dndcp/copyPasteUIX11.cpp:990-1013 | the loop stops at the segment's terminator, with the segment escaped in place and everything before and after it unchanged |
| CopyPasteUIX11.GetNextPath | open-vm-tools/services/plugins/dndcp/copyPasteUIX11.cpp:980-1018 | past the end, returns "" with string and index unchanged; otherwise it returns the escaped segment up to the next NUL or the end, leaves it escaped in `str`, and leaves `index` one past the terminator, where the unread rest of the list begins; the result is Escape of the segment, so each input byte is escaped once and no inserted '%' or digit is escaped again |
| CopyPasteUIX11.HexDigitRoundTrip | open-vm-tools/services/plugins/dndcp/copyPasteUIX11.cpp:996-999 | each Dec2Hex digit is an upper-case hex digit, reads back as its value, and is not reserved |
| CopyPasteUIX11.EscapeAppend | open-vm-tools/services/plugins/dndcp/copyPasteUIX11.cpp:990-1013 | escaping works byte by byte: the escape of two texts placed together is their escapes placed together |
| CopyPasteUIX11.UnescapeEscape | open-vm-tools/services/plugins/dndcp/copyPasteUIX11.cpp:1000-1013 | RFC 1630 decoding of the escaped segment gives back the original bytes |
| CopyPasteUIX11.EscapeIsClean | open-vm-tools/services/plugins/dndcp/copyPasteUIX11.cpp:1009-1012 | the only reserved byte left in the escaped text is '%': the inserted hex digits are never reserved |
| CopyPasteUIX11.EscapePercentOpensEscape | open-vm-tools/services/plugins/dndcp/copyPasteUIX11.cpp:1006-1012 | every '%' of the escaped text is followed by two hex digits inside the text; no '%' of the input is left bare |
| CopyPasteUIX11.EscapeKeepsNul | open-vm-tools/services/plugins/dndcp/copyPasteUIX11.cpp:990-1013 | escaping neither adds nor removes a NUL, so the next segment still starts after the same terminator |
| CopyPasteUIX11.UriConcatAppend | open-vm-tools/services/plugins/dndcp/copyPasteUIX11.cpp:809-813 | the URI list of two file lists placed together is their URI lists placed together, in order |
| CopyPasteUIX11.FileContentsRequest | open-vm-tools/services/plugins/dndcp/copyPasteUIX11.cpp:784-829 | an unknown target gets empty data; a URI-list target gets `pre + file + post` for each file, in order; the GNOME target gets "copy\n" and its list, minus the final newline |
| CopyPasteUIX11.GnomeListOmitsFinalPost | open-vm-tools/services/plugins/dndcp/copyPasteUIX11.cpp:815-818 | the GNOME data is the header, a newline-terminated line per file except the last, and the last file's URI with no newline; it is "copy" for no files |
| CopyPasteUIX11.TrimBlanks | open-vm-tools/services/plugins/dndcp/copyPasteUIX11.cpp:880-883 | the result is a suffix of the text, everything cut off is '\n', '\r' or ' ', and the result does not start with one of them |
| CopyPasteUIX11.TrimBlanksIdempotent | open-vm-tools/services/plugins/dndcp/copyPasteUIX11.cpp:880-883 | trimming a trimmed text changes nothing |
| CopyPasteUIX11.StripSelectionPrefix | open-vm-tools/services/plugins/dndcp/copyPasteUIX11.cpp:872-883 | the selection loses a leading "copy\n", then a leading "cut\n", then every leading '\n', '\r' and ' ' |

## Left out

- Concurrency is not modelled: the locks, wait queues and events of vmciKernelIf.c, and the concurrent use of one queue.
- kmap/kunmap are not modelled: a page is reached directly as an array. The vmalloc/vfree of the queue record and the kmalloc/kfree (`VMCI_AllocKernelMem`/`VMCI_FreeKernelMem`) of the page-number lists are the allocator's block operations.
- The allocator is deterministic: it fails only when no page or block is free. The kernel's allocator may fail for other reasons. The PPN-list allocator is `VMCI_AllocKernelMem` over the same block counter.
- `page_to_pfn` and `VMCIKVaToMPN` are function parameters. Their values come from code that is not part of this model.
- AllocPPNSet: the source never checks entry 0, the header translation, against the element width. Only data-page numbers can fail the build, and the model follows the code here.
- AllocPPNSet: the overflow check is modelled as always on, as on a 64-bit kernel where `unsigned long` is wider than an element.
- The 64-bit wrap-around of `CEILING(size, PAGE_SIZE)`, `numPages * sizeof` and `queueOffset + size` is not modelled. Requires clauses keep the offsets inside the queue, as the source's comment assumes.
- The iovec is a cursor over a byte sequence. A failed chunk copy moves nothing. The real `memcpy_fromiovec`/`memcpy_toiovec` may copy part of a chunk before faulting; that code is not part of this model.
- A flat source buffer is a value, so the model does not cover a source that overlaps the queue's pages. A flat destination must not be one of the queue's pages.
- Constants from headers that are not part of this model take their usual values:
  - PAGE_SIZE = 4096;
  - a 32-bit VMCIPpnList element, laid out little-endian by `memcpy`;
  - VMCI_RESERVED_RESOURCE_ID_MAX = 1023 and VMCI_PRIVILEGE_FLAG_TRUSTED = 0x02;
  - FCP_GNOME_LIST_PRE = "file://", FCP_GNOME_LIST_POST = "\n", DND_URI_LIST_PRE_KDE = "file:" and DND_URI_LIST_POST = "\r\n".
- The VMCI status codes are a datatype. Their numeric values are in a header that is not part of this model.
- GetLastDirName and the prefix stripping treat a utf::string as one character per byte. This matches the source's mixed use of `bytes()` and character indexing only for ASCII paths.
- FileContentsRequest: the file list is a parameter. In the source it is the member `mHGFileContentsList`. The GTK selection object becomes the returned data string.
- The rest of copyPasteUIX11.cpp is not modelled: GTK callbacks, timing and polling, file creation and XDR decoding. `DnD_UriListGetNextFile`, `File_GetSize` and the `g_debug` logging are not part of this model.
- lib/misc/codeset.c, hgfsclient/hgfsclient.c and the generated Xml headers are not part of this model.

## Findings

| source | as written | input that shows it | evidently intended | confidence | as-written member | corrected member |
|---|---|---|---|---|---|---|
| open-vm-tools/services/plugins/dndcp/copyPasteUIX11.cpp:943-955 | `end` is a `size_t`, so `end >= 0` is always true; `end--` and `bytes() - 1` can wrap to SIZE_MAX, after which `end <= 0` is false and `str[start]` reads past the string | "/" (and "", where `str[end]` is read at SIZE_MAX) | a path with no room for a name yields "", as for "//" | not executed | CopyPasteUIX11.ShortPathOverrunsAsWritten | CopyPasteUIX11.GetLastDirName |
