# McuFlash / littlefs block device for the LPC55S16 — a Dafny model

This project models the flash layer of the littlefs port for the
LPCXpresso55S16 board, and proves properties of that model.

- **McuFlash** turns the on-chip flash into byte-addressable read, program and erase operations:
  - `McuFlash_IsAccessible` and `McuFlash_IsErased` tell whether a region may be read.
    On the LPC55Sxx, reading an erased page hard-faults.
  - `McuFlash_Read` reads a region, or fills the buffer with 0xFF and reports a fault when the region is erased.
  - `McuFlash_ProgramPage` erases, verifies, programs and verifies one page.
  - `McuFlash_Program` writes a whole aligned page directly. Any other write becomes a page-by-page read–merge–reprogram loop.
  - `McuFlash_InitErase` erases pages and leaves them unreadable.
  - `McuFlash_Erase` fills pages with zeros.
- **McuLittleFSBlockDevice** provides the read, prog, erase, sync, init and deinit callbacks littlefs is configured with.
  - Each callback computes `(block + BLOCK_OFFSET) * block_size + off` in 32 bits, calls McuFlash and maps the result to `LFS_ERR_OK` or `LFS_ERR_IO`.
- **McuLittleFS** is modelled only in part:
  - the line and text helpers `McuLFS_gets`, `putc_bfd` / `McuLFS_puts`, `McuLFS_readLine` and `McuLFS_writeLine`;
  - the `McuLFS_isMounted` guard in Format, Mount, Unmount, Dir, FileList, CopyFile, MoveFile and RemoveFile.

The model is built from these parts:

- **Flash array** (`flash_model.dfy`, module `FlashModel`): a sequence of 0x200-byte pages, each `Erased` or `Programmed(bytes)`.
  - The specification functions describe the memory after an operation succeeds:
    - `Written`: after a write;
    - `EraseRange`: after an erase;
    - `Contents`: what a read returns;
    - `Plan`: the chunks the merge loop visits.
  - `StoppedAt` describes the memory after a page-by-page operation fails.
- **Flash driver** (`flash_iap.dfy`, module `FlashIap`): `fsl_iap` is the NXP flash driver the layer calls.
  - It is modelled by the class `FlashDriver`, which holds the flash array and a fault script. The i-th driver call still to come fails when the script says so.
  - The driver also keeps a ghost count, `erasedReads`, of the reads it was asked to make of flash holding an erased byte. On the LPC55Sxx such a read hard-faults; in the model it only fails, and the count shows whether McuFlash's guard kept it from happening.
  - Callers never see the script. Every McuFlash contract therefore states two things:
    - what is true whatever the driver does;
    - when the driver is healthy (no fault left), exactly when each operation succeeds.
- **McuFlash** (`mcu_flash.dfy`): module-level methods over the driver singleton. Each is proved against the specification functions.
- **Block device** (`block_device.dfy`): the callbacks, the 32-bit address map and its injectivity, and read-back and frame lemmas.
- **Text helpers** (`lfs_text.dfy`): an abstract littlefs file `LfsFile`.
  - `lfs_file_write` either writes everything and returns its length, or returns a negative error code. It never reports a short write.
  - A write that does not fit the room left returns `LFS_ERR_NOSPC` and keeps nothing.
  - Any other failure (an I/O error from the block device, corruption, a file grown too large) comes from a script of write outcomes held by the file. Such a write returns its error code and may keep a prefix of its bytes.
  - The text contracts say what holds for every file, and, for a file whose script holds no such failure, exactly when each operation succeeds.
  - `McuLFS_gets` and `McuLFS_puts` are proved against recursive reference functions: `GetLine` for gets, and `PutAll` / `PutsFinish` for puts.
  - Line-feed conversion is specified by `CrLf` and `DropCr`.
- **Mount guard** (`lfs_mount.dfy`): the flag `McuLFS_isMounted` and a ghost trace of the littlefs calls made.
  - Any sequence of guarded calls keeps the flag in agreement with the library's state.
  - It also never mounts or formats a mounted file system, and never calls anything else on an unmounted one.

In four places the code behaves differently from what a flash abstraction of this kind is usually expected to do. The model follows the code:

- **Block erase zero-fills.** The littlefs erase callback calls `McuFlash_Erase` (McuLittleFSBlockDevice.c:33). So a littlefs block erase zero-fills the block with `McuFlash_Program`, and does not leave the pages erased.
- **Merging into an erased page fails.** The merge path of `McuFlash_Program` reads every page it touches first. `McuFlash_Read` reports a fault on an erased page, so the write fails with `ERR_FAILED` (McuFlash.c:88-91). It does not merge into a 0xFF-filled page. `McuFlash.Program` states this: with a healthy driver, a partial-page write succeeds exactly when the region is programmed.
- **InitErase does not check alignment.** `McuFlash_InitErase` checks only that the size is a multiple of a page. A misaligned address is refused by the driver's alignment check, which the driver model reproduces.
- **Zero-length writes and erases are not a defined no-op.** A zero-length `McuFlash_Program` or `McuFlash_Erase` returns an uninitialised status. These operations are modelled for non-empty requests only (see "Left out").

## Model

| member | source | states |
|---|---|---|
| McuFlash.IsAccessible | lpcxpresso55s16_flashiap1/source/McuFlash.c:15-22 | reports "not accessible" only for a wholly erased region and "accessible" for any region that is not; if the erase verification itself fails, the region counts as accessible; with a healthy driver, accessible exactly when not erased |
| McuFlash.IsErased | lpcxpresso55s16_flashiap1/source/McuFlash.c:24-29 | "erased" only for a wholly erased region; with a healthy driver, exactly when the region is erased |
| McuFlash.Read | lpcxpresso55s16_flashiap1/source/McuFlash.c:31-43 | result is OK or FAULT; on OK the buffer holds the region's contents; an erased region always gives FAULT and, with a healthy driver, a buffer of 0xFF; bytes past dataSize are untouched; with a healthy driver, OK exactly when the region is programmed; a driver read of erased flash happens at most once and only with a FAULT result, and with a healthy driver it happens exactly when the region lies in the flash and is partly but not wholly erased, so a wholly erased region never reaches `FLASH_Read` |
| McuFlash.ProgramPage | lpcxpresso55s16_flashiap1/source/McuFlash.c:45-73 | a misaligned address or a size other than one page fails without touching the flash; on success exactly that page now holds the data; on failure no other page changed; with a healthy driver, success exactly for an aligned full page inside the flash |
| McuFlash.Program | lpcxpresso55s16_flashiap1/source/McuFlash.c:75-114 | on success the flash is `Written(old, addr, data)`; on failure the pages before some touched page hold the new data, later pages are untouched and only that page is indeterminate; a partial-page write follows the chunk plan and, with a healthy driver, succeeds exactly when the whole region is programmed, while a full aligned page succeeds exactly when it lies in the flash; with a healthy driver no read of erased flash is made |
| McuFlash.MergeWrite | lpcxpresso55s16_flashiap1/source/McuFlash.c:83-109 | the read–merge–reprogram loop: success means the region was programmed, the flash is `Written(old, addr, data)` and the visited chunks are exactly `Plan(addr, n)`; failure stops at a touched page after a proper prefix of the plan; with a healthy driver, success exactly when the region is programmed, and no read of erased flash is made |
| McuFlash.MergePage | lpcxpresso55s16_flashiap1/source/McuFlash.c:88-107 | one loop iteration: reads the page, merges the chunk and reprograms it, so the flash becomes `WrittenBelow` one page further; on failure only that page changed; with a healthy driver and a programmed region it succeeds; with a healthy driver its whole-page read never reaches erased flash |
| McuFlash.MergeAdvance | lpcxpresso55s16_flashiap1/source/McuFlash.c:98-100 | overwriting the chunk at its offset in the page just read gives exactly the page `Written` prescribes, and the bytes done so far stay readable |
| McuFlash.StoppedBelow | lpcxpresso55s16_flashiap1/source/McuFlash.c:88-91 | a merge loop that fails at a touched page, with only that page changed since, satisfies the `StoppedAt` failure shape |
| McuFlash.PlanAdvance | lpcxpresso55s16_flashiap1/source/McuFlash.c:92-107 | the chunk the loop takes next is the next chunk of the plan, and what remains is the plan of the rest |
| McuFlash.PlanStopped | lpcxpresso55s16_flashiap1/source/McuFlash.c:87-103 | while bytes remain, the chunks visited so far are a proper prefix of the plan |
| McuFlash.InitErase | lpcxpresso55s16_flashiap1/source/McuFlash.c:116-130 | a size that is not a page multiple fails and changes nothing; on success the pages are `EraseRange(old, ...)` and the region reads as erased; on failure the erase stopped at one page, which for a page-multiple size lies in the requested range; with a healthy driver, success exactly for a zero size or an aligned region inside the flash |
| McuFlash.EraseStopped | lpcxpresso55s16_flashiap1/source/McuFlash.c:124-127 | a page erase failing after i pages were erased leaves the `StoppedAt` shape of the full erase |
| McuFlash.Erase | lpcxpresso55s16_flashiap1/source/McuFlash.c:132-145 | a size that is not a page multiple fails and changes nothing; on success the region is `Written(old, addr, Zeros(n))`, so it reads back as zeros; on failure the fill stopped at one page, which for a page-multiple size is a page of the region; with a healthy driver and a page-multiple size, success exactly when the region lies in the flash for an aligned address, and exactly when the whole region is programmed for a misaligned one, since every step then takes the merge path; with a healthy driver no read of erased flash is made |
| McuFlash.ZeroFillAdvance | lpcxpresso55s16_flashiap1/source/McuFlash.c:138-143 | zero-filling page i after pages 0..i-1 equals zero-filling pages 0..i at once |
| McuFlash.ZeroFillPage | lpcxpresso55s16_flashiap1/source/McuFlash.c:139-142 | one zero-fill step: on success the flash holds one more page of zeros; a failure stops the whole fill on a page of the region and, with a healthy driver, happens only when the fill could not succeed (an aligned region outside the flash, or a misaligned region not wholly programmed); with a healthy driver no read of erased flash is made |
| McuFlash.ZeroFillStopped | lpcxpresso55s16_flashiap1/source/McuFlash.c:139-142 | a `McuFlash_Program` failure on page i leaves the `StoppedAt` shape of the whole zero fill, stopped on a page of the region |
| McuFlash.ZeroFillReadable | lpcxpresso55s16_flashiap1/source/McuFlash.c:138-143 | when the whole region is programmed, each zero-fill step finds its own range programmed, since earlier steps only reprogram pages |
| McuFlash.ZeroFillProgrammed | lpcxpresso55s16_flashiap1/source/McuFlash.c:138-143 | a misaligned step that found its range programmed extends the programmed part of the original region by one page |
| McuFlash.Init | lpcxpresso55s16_flashiap1/source/McuFlash.c:160-167 | initialising the driver does not touch the flash and keeps a healthy driver healthy |
| FlashModel.WrittenReadBack | lpcxpresso55s16_flashiap1/source/McuFlash.c:75-114 | after a successful write the region is readable and reads back exactly the data written |
| FlashModel.WrittenFrame | lpcxpresso55s16_flashiap1/source/McuFlash.c:83-108 | a write keeps every readable byte outside its region, including the rest of the partially written pages |
| FlashModel.WrittenPages | lpcxpresso55s16_flashiap1/source/McuFlash.c:83-108 | a write changes no page outside the pages it touches |
| FlashModel.FastPathWritten | lpcxpresso55s16_flashiap1/source/McuFlash.c:111-113 | programming an aligned full page directly gives the same memory as the merged write |
| FlashModel.WrittenConcat | lpcxpresso55s16_flashiap1/source/McuFlash.c:104-107 | writing d1 and then d2 right after it equals writing d1 + d2 |
| FlashModel.StoppedAtCompose | lpcxpresso55s16_flashiap1/source/McuFlash.c:138-143 | a failure inside the second of two consecutive writes is a failure of the combined write |
| FlashModel.EraseRangeErased | lpcxpresso55s16_flashiap1/source/McuFlash.c:122-128 | after erasing the pages of an aligned region, the whole region reads as erased |
| FlashModel.WholePageErasedOrNot | lpcxpresso55s16_flashiap1/source/McuFlash.c:88 | a whole page inside the flash is either entirely erased or holds no erased byte, so the merge loop's page read is either refused by the guard or safe |
| FlashModel.ErasedNotProgrammed | lpcxpresso55s16_flashiap1/source/McuFlash.c:31-35 | an erased region is never readable |
| FlashModel.ContentsPart | lpcxpresso55s16_flashiap1/source/McuFlash.c:31-43 | reading a sub-range of a readable region gives the matching slice of reading the whole region |
| FlashModel.PlanPartition | lpcxpresso55s16_flashiap1/source/McuFlash.c:83-108 | the merge loop visits the consecutive pages from PageOf(addr) to PageOf(addr+n-1), starts at the address's offset, then at offset 0; every chunk but the last runs to the end of its page; together the chunks cover exactly n bytes and each starts where the previous ended |
| FlashModel.ChunksShape | lpcxpresso55s16_flashiap1/source/McuFlash.c:87-108 | the chunks from a page and offset lie on consecutive pages, only the first has a non-zero offset, and they cover exactly the remaining bytes in the minimal number of pages |
| FlashModel.PlanChunkSize | lpcxpresso55s16_flashiap1/source/McuFlash.c:92-97 | the k-th chunk's size is the end of its page or what remains after the first k chunks, whichever is smaller |
| FlashModel.ChunksDrop | lpcxpresso55s16_flashiap1/source/McuFlash.c:104-107 | after k chunks, what remains of the plan is the plan of the remaining bytes from the k-th chunk's page and offset |
| LittleFsBlockDevice.FlashAddress | lpcxpresso55s16_flashiap1/source/McuLittleFSBlockDevice.c:15 | the address the callbacks pass to McuFlash is always a 32-bit value |
| LittleFsBlockDevice.LfsResult | lpcxpresso55s16_flashiap1/source/McuLittleFSBlockDevice.c:16-19 | every McuFlash result maps to LFS_ERR_OK or LFS_ERR_IO, and to LFS_ERR_OK exactly when it is ERR_OK |
| LittleFsBlockDevice.AddressDecode | lpcxpresso55s16_flashiap1/source/McuLittleFSBlockDevice.c:15 | when the block region fits in 32 bits, the address does not wrap, its quotient by the block size is block + BLOCK_OFFSET and its remainder is the offset, and it lies past the reserved blocks |
| LittleFsBlockDevice.AddressesDistinct | lpcxpresso55s16_flashiap1/source/McuLittleFSBlockDevice.c:15 | two (block, offset) pairs give the same address exactly when they are equal |
| LittleFsBlockDevice.AddressStep | lpcxpresso55s16_flashiap1/source/McuLittleFSBlockDevice.c:15 | consecutive offsets within a block map to consecutive addresses |
| LittleFsBlockDevice.BlockAligned | lpcxpresso55s16_flashiap1/source/McuLittleFSBlockDevice.c:33 | with a block size that is a page multiple, every block starts on a page boundary |
| LittleFsBlockDevice.Read | lpcxpresso55s16_flashiap1/source/McuLittleFSBlockDevice.c:13-20 | returns OK or IO; on OK the buffer holds the contents at the mapped address; an erased region gives IO and, with a healthy driver, is never passed to the driver read; a read of erased flash happens at most once and only with an IO result; with a healthy driver, OK exactly when the region is programmed |
| LittleFsBlockDevice.Prog | lpcxpresso55s16_flashiap1/source/McuLittleFSBlockDevice.c:22-29 | on OK the flash is the buffer written at the mapped address; on IO the write stopped at one page the write touches, with earlier pages written and later ones untouched; with a healthy driver, the McuFlash success condition, and no read of erased flash |
| LittleFsBlockDevice.Erase | lpcxpresso55s16_flashiap1/source/McuLittleFSBlockDevice.c:31-38 | a block size that is not a page multiple gives IO and changes nothing; on OK the block is zero-filled; on IO the fill stopped at one page, which for a page-multiple block size is a page of the block; with a healthy driver and a fitting geometry, OK exactly when the block lies in the flash; with a healthy driver no read of erased flash |
| LittleFsBlockDevice.Sync | lpcxpresso55s16_flashiap1/source/McuLittleFSBlockDevice.c:40-43 | always reports success; the layer keeps no cache to flush |
| LittleFsBlockDevice.Deinit | lpcxpresso55s16_flashiap1/source/McuLittleFSBlockDevice.c:45-47 | always reports success |
| LittleFsBlockDevice.Init | lpcxpresso55s16_flashiap1/source/McuLittleFSBlockDevice.c:49-53 | initialises the flash driver and reports success |
| LittleFsBlockDevice.ProgReadBack | lpcxpresso55s16_flashiap1/source/McuLittleFSBlockDevice.c:13-29 | after a successful prog, reading any sub-range of what was programmed, from the same block, returns the matching slice of the buffer |
| LittleFsBlockDevice.ErasedBlockReadsZeros | lpcxpresso55s16_flashiap1/source/McuLittleFSBlockDevice.c:31-38 | after a successful block erase, every read inside that block succeeds and returns zeros |
| LittleFsBlockDevice.ProgKeepsOtherBlocks | lpcxpresso55s16_flashiap1/source/McuLittleFSBlockDevice.c:22-29 | a prog to one block leaves every readable byte of every other block unchanged |
| McuLfsText.DropCrCrLf | lpcxpresso55s16_flashiap1/source/McuLittleFS.c:89-91 | removing carriage returns undoes the LF to CR LF conversion |
| McuLfsText.GetLineStored | lpcxpresso55s16_flashiap1/source/McuLittleFS.c:60-69 | what gets stores is exactly the characters it consumed with the carriage returns removed |
| McuLfsText.GetLineNewline | lpcxpresso55s16_flashiap1/source/McuLittleFS.c:65-68 | gets consumes nothing past the first line feed, and stores a line feed exactly when the last character consumed is one |
| McuLfsText.GetLineStops | lpcxpresso55s16_flashiap1/source/McuLittleFS.c:60-68 | gets stops only at the end of the file, with len - 1 characters stored, or after a line feed |
| McuLfsText.Gets | lpcxpresso55s16_flashiap1/source/McuLittleFS.c:50-72 | the buffer holds the `GetLine` result followed by a NUL and is unchanged past it; the file has advanced by the characters consumed; the result is non-null exactly when something was stored |
| McuLfsText.GetsFill | lpcxpresso55s16_flashiap1/source/McuLittleFS.c:60-69 | the read loop stores exactly `GetLine`'s characters, consumes exactly its count and touches nothing else |
| McuLfsText.GetsAdvance | lpcxpresso55s16_flashiap1/source/McuLittleFS.c:63-68 | after one character (skipped CR, stored LF that ends the line, or stored ordinary character) the remaining reference result is the rest of the loop's work |
| McuLfsText.PutBuff.Putc | lpcxpresso55s16_flashiap1/source/McuLittleFS.c:85-105 | the buffer, index, count and file after one putc_bfd are those of `PutcStep`: a line feed first puts a CR; a negative index ignores the character; at 61 characters the buffer is written and the index becomes 0 when the write returned its full length and -1 otherwise |
| McuLfsText.EmitInv | lpcxpresso55s16_flashiap1/source/McuLittleFS.c:93-104 | one buffered character keeps `PutInv`: the file holds a prefix of what was put; while the index is valid, file plus buffer hold exactly what was put and the count is right; with a file whose writes fail only for lack of space, the index is -1 only after more was put than the file had room for |
| McuLfsText.PutcStepInv | lpcxpresso55s16_flashiap1/source/McuLittleFS.c:85-105 | putc_bfd keeps `PutInv`, with the CR LF expansion of the character added to what was put |
| McuLfsText.PutAllInv | lpcxpresso55s16_flashiap1/source/McuLittleFS.c:123-125 | the put loop keeps `PutInv` for the CR LF expansion of the string |
| McuLfsText.PutAllSticky | lpcxpresso55s16_flashiap1/source/McuLittleFS.c:93-96 | once the index is -1, no further character changes anything |
| McuLfsText.PutsFinishInv | lpcxpresso55s16_flashiap1/source/McuLittleFS.c:126-134 | after the final flush a non-negative result equals the number of characters put, and the file then holds them all; with a file whose writes fail only for lack of space, the result is non-negative exactly when everything put fits in the room; in every case the file holds a prefix of what was put and its room shrank by what it received |
| McuLfsText.PutsOutcomeIff | lpcxpresso55s16_flashiap1/source/McuLittleFS.c:112-135 | a non-negative count from puts is the length of the CR LF text, and the file then ends with the whole text; with a file whose writes fail only for lack of space, the count is non-negative exactly when that text fits in the room; whatever happens the file received only a prefix of that text |
| McuLfsText.PutChars | lpcxpresso55s16_flashiap1/source/McuLittleFS.c:123-125 | the loop leaves the putbuff in state `PutAll(old state, str)` |
| McuLfsText.Puts | lpcxpresso55s16_flashiap1/source/McuLittleFS.c:112-135 | the result and file are `PutsFinish(PutAll(...))`; a non-negative result equals the length of the CR LF text, with the whole text written; with a file whose writes fail only for lack of space, the result is non-negative exactly when that text fits; the file always holds a prefix of the text |
| McuLfsText.PutsFinalWriteSize | lpcxpresso55s16_flashiap1/source/McuLittleFS.c:126 | the length argument of the final write is the index cast to 32 bits, equal to the index whenever it is valid |
| McuLfsText.PutsFinalWriteOverrun | lpcxpresso55s16_flashiap1/source/McuLittleFS.c:126 | with less room than one buffer and at least 61 characters of text, whatever the write outcomes, the index ends at -1 and the final write is asked for 0xFFFFFFFF bytes from a 64-byte buffer |
| McuLfsText.PutsFinalWriteOverrunExample | lpcxpresso55s16_flashiap1/source/McuLittleFS.c:112-135 | 61 letters put into a full file system end with index -1 and a final write length of 0xFFFFFFFF |
| McuLfsText.LineLength | lpcxpresso55s16_flashiap1/source/McuLittleFS.c:455-460 | the count readLine reports is the number of characters before the first line feed, or to the end of the file |
| McuLfsText.ReadLine | lpcxpresso55s16_flashiap1/source/McuLittleFS.c:449-464 | as written: returns OK with the count of characters up to the line feed; consumes the line and its line feed; the buffer is `LineBufferAsWritten`, where character i is stored only while i + 2 < bufSize and the terminator goes at index count |
| McuLfsText.ReadLineAsWrittenHolds | lpcxpresso55s16_flashiap1/source/McuLittleFS.c:455-461 | a line with two spare places in the buffer is stored completely and NUL-terminated |
| McuLfsText.ReadLineStaleByte | lpcxpresso55s16_flashiap1/source/McuLittleFS.c:457-461 | with a 4-character buffer holding "zzzz", the line "abc" leaves "abz" and a NUL, which does not hold the line |
| McuLfsText.ReadLineCorrected | lpcxpresso55s16_flashiap1/source/McuLittleFS.c:449-464 | the buffer holds the first min(count, bufSize-1) characters of the line followed by a NUL, and nothing past bufSize changes; count and consumption as in the original |
| McuLfsText.WriteLine | lpcxpresso55s16_flashiap1/source/McuLittleFS.c:436-447 | the file receives a prefix of line + CR LF; the result is FAILED, and the file closed, exactly when `lfs_file_write` returned a negative code; on OK the file received the whole line and CR LF; with a file whose writes fail only for lack of space, FAILED exactly when the line and CR LF do not fit in the room |
| McuLfsMount.Step | lpcxpresso55s16_flashiap1/source/McuLittleFS.c:137-190 | the library is called exactly when the flag allows the operation; a refused call fails and changes nothing; the result is OK exactly when the library call was made and succeeded; the flag changes exactly on a successful mount or unmount |
| McuLfsMount.StepUsesLibraryProperly | lpcxpresso55s16_flashiap1/source/McuLittleFS.c:137-190 | one guarded call uses the library properly and leaves the flag equal to the library's mount state |
| McuLfsMount.StepKeepsAgreement | lpcxpresso55s16_flashiap1/source/McuLittleFS.c:20 | after any proper trace from an unmounted start, one more guarded call keeps the trace proper and the flag in agreement |
| McuLfsMount.LibMountedAppend | lpcxpresso55s16_flashiap1/source/McuLittleFS.c:161-185 | the library's mount state after two traces is computed trace by trace |
| McuLfsMount.ProperUseAppend | lpcxpresso55s16_flashiap1/source/McuLittleFS.c:139-179 | two traces together are proper exactly when each is, the second from the mount state the first leaves |
| McuLfsMount.RunUsesLibraryProperly | lpcxpresso55s16_flashiap1/source/McuLittleFS.c:137-494 | any sequence of guarded calls never formats or mounts a mounted file system and calls nothing else on an unmounted one, and the flag always equals the library's mount state |
| McuLfsMount.McuLfs.Format | lpcxpresso55s16_flashiap1/source/McuLittleFS.c:137-153 | refused while mounted; otherwise formats and returns OK exactly when lfs_format does; the flag is unchanged; the invariant is kept |
| McuLfsMount.McuLfs.Mount | lpcxpresso55s16_flashiap1/source/McuLittleFS.c:155-171 | refused while mounted; otherwise the flag is set and OK returned exactly when lfs_mount succeeds |
| McuLfsMount.McuLfs.Unmount | lpcxpresso55s16_flashiap1/source/McuLittleFS.c:173-190 | refused while unmounted; otherwise the flag is cleared and OK returned exactly when lfs_unmount succeeds |
| McuLfsMount.McuLfs.Dir | lpcxpresso55s16_flashiap1/source/McuLittleFS.c:192-252 | refused while unmounted; otherwise the result is the listing's result and the flag is unchanged |
| McuLfsMount.McuLfs.FileList | lpcxpresso55s16_flashiap1/source/McuLittleFS.c:259-305 | refused while unmounted; otherwise the result is the listing's result and the flag is unchanged |
| McuLfsMount.McuLfs.CopyFile | lpcxpresso55s16_flashiap1/source/McuLittleFS.c:307-360 | refused while unmounted; otherwise the result is the copy's result and the flag is unchanged |
| McuLfsMount.McuLfs.MoveFile | lpcxpresso55s16_flashiap1/source/McuLittleFS.c:362-373 | refused while unmounted; otherwise OK exactly when lfs_rename returns a non-negative code |
| McuLfsMount.McuLfs.RemoveFile | lpcxpresso55s16_flashiap1/source/McuLittleFS.c:478-494 | refused while unmounted; otherwise OK exactly when lfs_remove returns a non-negative code |

## Left out

- `fsl_iap` is not part of this model. `FLASH_Init`, `FLASH_Erase`, `FLASH_VerifyErase`, `FLASH_Program`, `FLASH_VerifyProgram` and `FLASH_Read` are modelled by `FlashIap.FlashDriver`:
  - each call does its documented job when it works;
  - a failing call, chosen by a fault script, changes at most the pages it addresses;
  - `FLASH_Erase`, `FLASH_Program` and `FLASH_VerifyProgram` refuse a start or length that is not page-aligned, and a range outside the flash, with an error, as the driver's alignment check does;
  - `FLASH_VerifyErase` and `FLASH_Read` are assumed to accept any start and length inside the flash, with no alignment check. McuFlash passes them arbitrary byte regions. If the driver refused a misaligned region, `McuFlash_IsAccessible` would report it accessible and `McuFlash_Read` would fail; the model does not capture that.
- The driver's `PFlashPageSize` is taken to equal `McuFlash_CONFIG_FLASH_BLOCK_SIZE` (0x200), which is how the board's driver reports it.
- The flash array starts at address 0.
- Addresses inside McuFlash are unbounded. The 32-bit wrap of `(uint32_t)addr` is modelled only in the block device's address computation.
- McuFlash.Program: requires a non-empty write. For a zero-length write the code returns an uninitialised status.
- McuFlash.Erase: requires a non-zero size, for the same reason.
- LittleFsBlockDevice.Erase: requires a non-zero block size, because it passes `block_size` to `McuFlash_Erase`.
- LittleFsBlockDevice.Prog: requires a non-empty buffer. littlefs never programs zero bytes (its program size is at least one byte), and `McuFlash_Program` gives an uninitialised status for a zero-length write.
- McuFlash.Read: the guard verifies that the whole region is erased. When that verification fails for another reason (a driver fault, or a region only partly erased), the source does issue the driver read, and so may read erased flash; the contract states when that happens rather than ruling it out. A hard fault is modelled only as the `erasedReads` count, not as a halt.
- McuFlash.Init: requires the driver's init call to succeed. On failure the source spins forever in `for(;;)`.
- `ReadData` in McuFlash.c is a static function nothing calls.
- `McuFlash_Deinit` has an empty body.
- `McuLFS_IsMounted` is a getter of the flag that `McuLfsMount.McuLfs` holds.
- The littlefs library is not part of this model:
  - its files are the abstract `LfsFile`, a stream of unread characters plus what was written, the room left and a script of write outcomes;
  - a write that fails for lack of space keeps none of its bytes. littlefs may in fact have copied part of it into its cache and blocks before running out, and this model does not follow that;
  - failures other than lack of space come only from the script. Their causes (block-device I/O errors, corruption, `LFS_ERR_FBIG`) are not modelled separately;
  - `lfs_format`, `lfs_mount`, `lfs_unmount`, `lfs_rename` and `lfs_remove` are represented by the result codes they return;
  - the directory walks of Dir and FileList and the copy loop of CopyFile are represented only by whether they succeed. Their guard is modelled; their printing and file handling are not.
- `McuLFS_ReadFile`, `McuLFS_openFile`, `McuLFS_closeFile`, the shell hex-dump reader and the lfs_config table are not modelled.
- All `printf` output is left out.
- McuLfsText.Gets: a failing `lfs_file_read` ends the line like the end of the file. Read errors are not modelled separately.
- McuLfsText.ReadLine: requires the line to be shorter than the buffer and than 256 characters.
  - A longer line makes the source write its terminator past the buffer.
  - The `uint8_t` count wraps past 255.
  - A read error is not modelled: the source treats a negative read as a character.
- McuLfsText.ReadLineCorrected: requires a line shorter than 256 characters, for the same `uint8_t` count.
- McuLfsText.WriteLine: requires a line without NUL that fits, with CR LF and terminator, in the 200-byte `lineBuf`. Longer lines overflow `strcpy`/`strcat` in the source.
- McuLfsText.Puts: the string is the characters before its NUL terminator. The `int` character count is unbounded, so its overflow is not modelled.
- McuLfsText.Puts: the final write follows the corrected `PutsFinish`, which skips the write after an error (see "Findings"). The code as written is `PutsFinalWriteSize`.

## Findings

| source | as written | input that shows it | evidently intended | confidence | as-written member | corrected member |
|---|---|---|---|---|---|---|
| lpcxpresso55s16_flashiap1/source/McuLittleFS.c:126 | `McuLFS_puts` always makes the final `lfs_file_write` with length `(uint32_t)pb.idx`, even when an earlier flush failed and left `pb.idx == -1` | 61 letters on a file system with no room left: the first flush is refused with `LFS_ERR_NOSPC`, the index becomes -1, and the final write is asked for 0xFFFFFFFF bytes from the 64-byte buffer | skip the final write once the index is -1 and return -1 | not executed | McuLfsText.PutsFinalWriteOverrun | McuLfsText.Puts |
| lpcxpresso55s16_flashiap1/source/McuLittleFS.c:457-461 | `McuLFS_readLine` stores the i-th character only while `i + 1 < bufSize - 1`, but puts the terminator after the whole line | bufSize 4, buffer holding "zzzz", line "abc": the buffer ends up "abz" plus NUL | store every character that fits before the terminator (`count < bufSize`), and put the terminator at `min(count, bufSize - 1)` | not executed | McuLfsText.ReadLineStaleByte | McuLfsText.ReadLineCorrected |
