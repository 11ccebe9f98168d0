# A verified model of the ESP8266 Arduino core

This project models the parts of the ESP8266 Arduino core where state, arithmetic and failure meet, and proves what they
promise. `dafny verify dfyconfig.toml` checks all of it.

**Over-the-air updates.** `UpdaterClass` stages an image in NOR flash, chunk by chunk; a command protected by a CRC passes
through RTC memory; `eboot` copies the image over the running one and loads it.

- `Bytes`, `Division`, `Options`: bytes, 32-bit words, their bits, facts about division, and values that may be missing.
- `Crc`: `crc_update` of the bootloader, `crc32` of the core (`cores/esp8266/crc32.cpp:26-43`) and `crc8266` of `elf2bin.py`,
  which are one algorithm.
- `EbootCommand`: the command in RTC memory.
- `Flash`, `FlashIo`: the flash part, and `EspClass::flashWrite` with its page-breaking, Puya and unaligned writers.
- `Image`, `ImageFields`: the format that `elf2bin.py` writes, its readers, and its bytes one by one.
- `Eboot`, `Restart`: the bootloader, and the protocol of boots that are cut short and repeated.
- `Staging`, `Updater`: the state machine of the update.
- `EndToEnd`: all of it composed, from `begin` to the program that runs after the reboot.

**Key unwrap.** `AesUnwrap`: `aes_unwrap` against section 2.2 of RFC 3394, for any block cipher.

**DHCP leases.** `DhcpPool`: the lease list as a value and what every message keeps. `DhcpLeases`: when a request is granted,
and what becomes of every lease. `DhcpServer`: the linked list that is relinked in place. `Chain`: the linked items that it
and the scheduler use.

**Scheduler and timers.** `Schedule`, `ScheduleHistory`: functions to be called once, with recycled items. `PolledTimeout`:
timeouts on a clock that wraps. `Recurrent`, `RecurrentRuns`, `Grain`: functions called again and again, when each is called
over many runs, and the cached grain.

**Buffers, streams and text.** `StreamSend`: the three transfer paths of `Stream::send*`. `Cbuf`: the circular buffer.
`StringReplace`: `String::replace` in place. `IpAddress`, `IpGrammar`: printing and parsing of addresses, and exactly which
texts are taken.

## How the program is modelled

- Flash is a sequence of bytes. Erasing sets a 4096-byte sector to 0xFF, a write ANDs the new bytes in, or replaces on a part
  of the Puya kind. Every SPI operation may fail at any time, and then leaves anything at all in the range it was aimed at;
  `failures` counts such events.
- Hashes and the block cipher are parameters: any function, and any bijection on 16-byte blocks.
- Interrupts and callbacks are parameters of a run that say what is scheduled or registered at every point where interrupts
  are not locked out. A statement about all of them is a statement about all interleavings.
- The clock is a natural number; the program reads it modulo 2^32.
- Streams announce, accept and deliver whatever a list of turns says.
- 32-bit wrap-around is written out where it matters: addresses in `Image` and `Eboot`, sizes in `Updater`, lease addresses in
  network byte order, ticks and starts of timeouts.

## Where the code does not do what one would expect

Each of these is a lemma, with the exact condition where there is one.

- The comment at `cores/esp8266/Esp.cpp:729` says that the Puya writer handles paging. It cuts by size and not at page borders
  (`FlashIo.PuyaPagingExactly`).
- An empty `write` to an update that is complete flushes an empty buffer, which can erase the first sector of the file system
  (`Updater.EmptyWriteHarmlessExactly`).
- A mode byte that is neither legal nor 0xff is put back as 0xff, so the hash is not that of the bytes sent
  (`Staging.HashSeesTheImageExactly`).
- `end(true)` ignores the result of its last flush: if that fails, it looks at the start of flash instead of the update,
  answers true if the header there and the hash so far pass, and the next boot installs nothing
  (`Updater.UpdaterClass.EndRemaining`, `EndToEnd.RebootAfterFalseSuccess`).
- An update that changes the mode byte breaks the seal that `checkFlashCRC` looks at (`EndToEnd.InstalledFirmware`).
- `copy_raw` is not restartable when the staged image overlaps its destination and starts at or above it, but for the
  bootloader's sector copied onto itself alone (`Restart.RestartableExactly`, `Restart.OverlapIsNotRestartable`).
- If the sketch size cannot be read, `begin` takes it for 0, and an update larger than all of flash before the file system is
  accepted and runs into it (`EndToEnd.TooLargeIsAccepted`, `EndToEnd.RoomBeforeFileSystem`).
- `aes_unwrap` XORs only the low byte of the counter: of keys of more than 42 registers it rejects, with the identity as
  cipher, every one that is properly wrapped (`AesUnwrap.RejectedBeyondFortyTwo`).
- A request for an address below the lease range is granted, and duplicates follow (`DhcpPool.LowRequestMakesDuplicates`,
  `DhcpPool.WantedKeepsSoundExactly`); a full range up to host 255 hands out an address of another network
  (`DhcpPool.FullRangeUpTo255`, `DhcpPool.AnswerRightExactly`).
- `run_scheduled_functions` on an empty queue has nothing to stop at (`Schedule.CallsEntryExactly`,
  `Schedule.EmptyEntryNeverEnds`).
- The assertion in `schedule_recurrent_function_us` lets intervals through that the timer cannot hold, although its comment
  gives the limit (`Grain.BeyondTimeMax`); a grain computed while a function is being registered can be wrong
  (`Grain.ComputeGrainInterrupted`, `Grain.GrainRightExactly`).
- The peek-buffer path takes one byte too many when the output does not take what it announced and the delimiter is in sight
  (`StreamSend.PeekHitExactly`).
- At a turn without room, the byte-by-byte path reads and writes all the same, and loses the byte if it is not taken
  (`StreamSend.NoRoomLosesAByte`, `StreamSend.HonestByteFitsExactly`).
- For a delimiter above 255 the peek path stops at its low byte and the byte path never (`StreamSend.AgreeExactly`).
- The growing branch of `String::replace` takes matches from the right, in the text as it then is: it can replace other
  matches than those from the left, or more than it made room for (`StringReplace.GrowthRightExactly`).
- Three kinds of IPv6 addresses are not printed in a form of section 2.2 of RFC 4291: one to six zero groups in front get a
  single colon, a last group that is the only zero leaves its colon, and a first group that is the only one not zero is
  followed by three (`IpAddress.StandardTextExactly`).
- An IPv6 address that begins with two to six zero groups is printed in a form that the parser rejects
  (`IpAddress.PrintThenParse6Exactly`).
- The IPv6 parser takes letters beyond `f` for digits, and no digits at either end of a text for 0
  (`IpGrammar.DigitsExactly`, `IpGrammar.Takes6Exactly`); the IPv4 parser takes no digits between dots for 0
  (`IpGrammar.Takes4Exactly`).

## Model

| member | source | states |
|---|---|---|
| Crc.CrcConcat | cores/esp8266/Esp.cpp:467-481 | A CRC computed in pieces is the CRC of the whole, for every starting value and every cut. |
| Crc.CrcUpdate | bootloaders/eboot/eboot_command.c:3-23 | Here and in `crc8266`, the byte and bit loops compute the CRC of the whole message, defined bit by bit as a shift register without reference to the loops. |
| Crc.PolynomialIs | tools/elf2bin.py:145-162 | The polynomial has the coefficients of the generator x^32 + x^26 + x^23 + ... + x + 1. |
| Crc.RemainderOfSealed | bootloaders/eboot/eboot_command.c:3-23 | The register divides: from every starting value, a message followed by its own remainder leaves zero. |
| Crc.BurstOfBitsDetected | bootloaders/eboot/eboot_command.c:3-23 | Two different bit messages of any equal length that differ only within 32 consecutive bits never have the same CRC. |
| Crc.BurstDetected | bootloaders/eboot/eboot_command.c:3-23 | The same for bytes: a difference confined to four consecutive bytes always changes the CRC. |
| EbootCommand.WrittenCommandIsReadBack | bootloaders/eboot/eboot_command.c:31-58 | Every command written by one side is accepted by the other and decodes to itself. |
| EbootCommand.WordsOfACommand | bootloaders/eboot/eboot_command.c:31-58 | The words, spelled out: magic, action, arguments, CRC. With the exact magic, words are accepted if and only if they are the encoding of what they decode to; the low twelve bits of the magic are free. |
| EbootCommand.OneBadWordIsRejected | cores/esp8266/core_esp8266_eboot_command.cpp:30-62 | Changing any one of the RTC words of an accepted command, to any value, makes the reader reject it. |
| EbootCommand.Read | bootloaders/eboot/eboot_command.c:31-46 | The word loop copies the command out and answers whether magic and CRC hold. |
| EbootCommand.Write | cores/esp8266/core_esp8266_eboot_command.cpp:52-62 | The first words of RTC memory become the encoding with magic and CRC; the words behind stay. |
| EbootCommand.Clear | bootloaders/eboot/eboot_command.c:60-64 | Exactly the magic and CRC words become zero, and the memory is then not accepted as a command. |
| Flash.Chip.SpiWrite | cores/esp8266/Esp.cpp:872-899 | The flash part behind every write: an aligned write ANDs (or, on a replacing part, stores) the data, any failure stays inside the range, and the log of writes grows by it. |
| Flash.Chip.SpiErase | cores/esp8266/Esp.cpp:685-688 | Erasing sets one 4096-byte sector to 0xFF; a failure stays inside that sector. |
| Flash.ProgramErased | cores/esp8266/Updater.cpp:377-436 | An ANDing write onto erased bytes stores exactly the data. |
| FlashIo.WritePageBreak | cores/esp8266/Esp.cpp:699-725 | The pieces tile the range in order, none crosses a 256-byte page, and success is exactly the AND of the data into the range. |
| FlashIo.WriteCombined | cores/esp8266/Esp.cpp:753-771 | One turn of the Puya loop: read back, combine and replace equals one ANDing write. |
| FlashIo.WritePuya | cores/esp8266/Esp.cpp:730-773 | On a part that replaces, the whole loop has the effect of a plain write on a part that ANDs; the pieces written are recorded exactly. |
| FlashIo.PuyaPagingExactly | cores/esp8266/Esp.cpp:730-773 | No Puya piece crosses a page exactly when the offset is page aligned or the data fits the first page: the code cuts by size, not at page borders. |
| FlashIo.WriteWords | cores/esp8266/Esp.cpp:872-884 | Both parts and both writers together: success means the data is ANDed into exactly the range. |
| FlashIo.WriteUnaligned | cores/esp8266/Esp.cpp:802-870 | For any address and size: the count returned is of bytes that are ANDed in, only words from there to the end of the data may hold anything else, and all of them means the data is ANDed into exactly its range. |
| FlashIo.FlashWrite | cores/esp8266/Esp.cpp:886-899 | For every address, size and pointer alignment: true means ANDed into exactly [address, address+size) with all else unchanged, and without failures inside the part it is true. |
| Image.WriteBin | tools/elf2bin.py:106-142 | The accumulated size, checksum and padding produce the image format, and it fails exactly for too many segments or a fill address that is too small. |
| ImageFields.HeaderFields | tools/elf2bin.py:106-111 | Byte 0 of the file is 0xe9, then the number of segments, the flash mode, size and speed, and the entry point where the loader reads it. |
| ImageFields.SectionFields | tools/elf2bin.py:113-123 | Every section lies behind the header and the sections before it: its address, its length, its data, little-endian. |
| ImageFields.Padding | tools/elf2bin.py:130-134 | Behind the sections come at most fifteen zeros and one byte, to a length that is a multiple of 16. |
| ImageFields.ChecksumParity | tools/elf2bin.py:108-142 | Each bit of the checksum is that of 0xef, turned over once for each section byte that has it set. |
| ImageFields.LastByteIsChecksum | tools/elf2bin.py:123-142 | The last byte of the padded file is that checksum. |
| Image.WalkMeetsSections | bootloaders/eboot/eboot.c:64-112 | Over the output of the writer, for every segment list and position, the walk meets exactly the written segments and ends behind the last. |
| Image.FirmwareCarries | tools/elf2bin.py:228-247 | A bootloader of 0x1000 bytes followed by an application image is what the loader looks for. |
| Image.SealStaysInFirstSection | tools/elf2bin.py:174-186 | The two seal words lie in the data of the first section, so sealing changes no structure the loader walks. |
| Image.SketchSizeIsFileLength | cores/esp8266/Esp.cpp:603-633 | The sketch size read back from flash is the length of the firmware file, for every segment list. |
| Image.SketchSizeOfApp | cores/esp8266/Esp.cpp:603-633 | The same for any flash that carries an application, sealed or patched: where its image ends, padding and checksum included. |
| Image.GetSketchSize | cores/esp8266/Esp.cpp:603-633 | The loop over sections yields that size, or 0 after a failed read. |
| Image.StoreWord | tools/elf2bin.py:165-171 | The word is stored little-endian at its place, in place, and nothing else changes. |
| Image.AddCrc | tools/elf2bin.py:174-186 | Clearing the two words, taking the CRC and storing length and CRC gives the sealed file; a file that is too short fails. |
| Image.SealIsIdempotent | tools/elf2bin.py:174-186 | Sealing a sealed file changes nothing. |
| Image.CrcOfThreePieces | cores/esp8266/Esp.cpp:467-481 | The three-piece CRC of the device is the CRC of the file with the seal words zeroed. |
| Image.CheckCrc | cores/esp8266/Esp.cpp:467-481 | For a stored length that lies in flash and behind the seal words, the device accepts exactly the contents whose stored CRC is that CRC. |
| Image.SealAccepted | cores/esp8266/Esp.cpp:467-481 | Flash that starts with a sealed file is accepted by the device. |
| Image.TamperingRejected | cores/esp8266/Esp.cpp:467-481 | A change confined to four consecutive bytes outside the seal words is rejected. |
| Eboot.CopyOne | bootloaders/eboot/eboot.c:185-236 | One turn copies one sector, touches no other, and does not touch a bootloader sector that already holds the right bytes. |
| Eboot.CopyLoop | bootloaders/eboot/eboot.c:185-236 | The whole loop equals the sector-by-sector copy; stopped anywhere by a failure it leaves a copy cut short. |
| Eboot.CopyRaw | bootloaders/eboot/eboot.c:143-239 | Result 1 for addresses off sector borders; the compressed branch is taken exactly for the bytes 0x1f 0x8b; for an image whose signature is not read as gzip, result 0 means the rounded size was copied and any other a copy cut short; without failures and inside the part a plain copy succeeds; a compressed image touches nothing below the destination. |
| Eboot.CopyIsMove | bootloaders/eboot/eboot.c:185-236 | For destination at or below the source, overlapping or not, or disjoint, the copy acts as memmove and changes nothing outside the rounded destination. |
| Eboot.OverlapFromBelowIsNotAMove | bootloaders/eboot/eboot.c:185-236 | For every other overlap by whole sectors there are contents that come out wrong. |
| Eboot.LoaderRunsTheApp | bootloaders/eboot/eboot.c:64-112 | From flash that carries an application the loader takes, in order, exactly the segments below 0x40000000, in [0x40100000, 0x4010C000) or from 0x60000000 on, and the entry point. |
| Eboot.LoadableAre | bootloaders/eboot/eboot.c:83-104 | For every program: a segment is among those loaded if and only if its address is below 0x40000000, in [0x40100000, 0x4010C000) or at least 0x60000000, and they keep their order. |
| Eboot.LoadApp | bootloaders/eboot/eboot.c:64-121 | The loop over sections loads what the walk says, or reports the read failure. |
| Eboot.Boot | bootloaders/eboot/eboot.c:241-317 | A valid command is always cleared, also after a failure; a copy command for a plain image without SPI failures leaves exactly the copied flash, loadable or not, and starts it if loadable; a load command starts what is at its address; any other restarts with result 9; no command starts the application in place. |
| Restart.EveryRunIsSafe | bootloaders/eboot/eboot.c:259-300 | Over every run of boots cut short anywhere and repeated, with a plain image, no SPI failure, and source and destination disjoint: flash outside the destination stays, the command is intact or gone for good, and gone only with the image in place, and the copy still ends with the same contents as an undisturbed one. |
| Restart.RestartableExactly | bootloaders/eboot/eboot.c:185-236 | For all sector-aligned places in flash: some contents and some cut lead to other contents in the end if and only if source and destination overlap with the source at or above the destination, but for the bootloader sector copied onto itself alone. |
| Restart.EveryRunEndsTheSame | bootloaders/eboot/eboot.c:259-300 | For every other place, over every run of boots cut short anywhere and repeated, with a plain image and no SPI failure, completing the copy gives the contents of an undisturbed one, and the command is gone only with them in place. |
| Restart.BootloaderSurvivesExactly | bootloaders/eboot/eboot.c:194-225 | The bootloader sector survives every cut exactly when it already held what is to be written there. |
| Restart.OverlapIsNotRestartable | bootloaders/eboot/eboot.c:259-300 | For every overlap by whole sectors with the source above the destination, and every copy onto itself but one, there are contents for which one reset changes the final result. |
| Restart.BootSectorOntoItself | bootloaders/eboot/eboot.c:210-225 | The one copy onto itself that is harmless: the bootloader sector alone is never touched. |
| Restart.CutIsLocal | bootloaders/eboot/eboot.c:185-236 | A copy cut short changes only the rounded destination, and not even the boot sector if that was right. |
| Restart.SameSourceSameMove | bootloaders/eboot/eboot.c:185-236 | From any flash that still has the source, the copy ends the same. |
| Staging.StageMore | cores/esp8266/Updater.cpp:377-436 | The next buffer lands on erased bytes only, so what is staged is what was sent, and nothing outside the update changes. |
| Staging.EraseMore | cores/esp8266/Updater.cpp:382-385 | The sectors erased are exactly those of the bytes staged, each once, in order. |
| Staging.FailureIsLocal | cores/esp8266/Updater.cpp:378-436 | Whatever a failed erase or write did, it did inside the update. |
| Staging.HashSeesTheImageExactly | cores/esp8266/Updater.cpp:399-422 | The hash is fed exactly the bytes sent if and only if the mode byte was left alone, is legal, or is 0xff. |
| Staging.PatchedExactly | cores/esp8266/Updater.cpp:390-408 | What is written of an image: byte 2 of a plain one becomes the mode of the flash part, or 0xff in place of a legal mode if that is unknown; no other byte changes, and none of a compressed image. |
| Updater.UpdaterClass.Reset | cores/esp8266/Updater.cpp:47-66 | After a reset no update is running. |
| Updater.UpdaterClass.SetError | cores/esp8266/Updater.cpp:589-598 | Any error ends the update and is kept. |
| Updater.UpdaterClass.GetFlashChipMode | cores/esp8266/Esp.cpp:321-331 | The mode byte at the start of flash, collapsed to a legal mode or 0xff. |
| Updater.UpdaterClass.EraseOnBoundary | cores/esp8266/Updater.cpp:377-385 | A sector is erased exactly when the write position enters it. |
| Updater.UpdaterClass.PatchMode | cores/esp8266/Updater.cpp:390-408 | Only the first buffer of a plain application image, and only byte 2 of it, is changed, exactly if its mode differs from that of the part. |
| Updater.UpdaterClass.Flush | cores/esp8266/Updater.cpp:377-424 | Erase, patch, write and put back: exact flash contents on success, and only the current sector touched on failure. |
| Updater.UpdaterClass.Commit | cores/esp8266/Updater.cpp:377-424 | Seen from the update: the buffered bytes are committed (staged, hashed, each sector erased once), or only the sectors of the update were touched. |
| Updater.UpdaterClass.WriteBuffer | cores/esp8266/Updater.cpp:377-436 | Success keeps the staging invariant with the buffer empty; failure ends the update, with the erase error only on a sector border that was not erased, and the write error only behind the erase that was due; without SPI failures a non-empty buffer succeeds. |
| Updater.UpdaterClass.Begin | cores/esp8266/Updater.cpp:68-203 | The error code is that of the first test that fails: an update running, the boot mode, the size, the flash configuration, room, memory. Success starts an update with the invariant and an empty image, that ends at the file system, or begins at offset 0 if it is larger than all before that, or lies over the file system. |
| Updater.UpdaterClass.BeginsExactly | cores/esp8266/Updater.cpp:68-203 | For a sketch that was found and sums that do not wrap: an update starts if and only if none is running, the boot mode, configuration and memory are right, the command is known, and a size that is not 0 fits over the file system, or between the sketch and the file system. |
| Updater.UpdaterClass.StartIs | cores/esp8266/Updater.cpp:116-157 | The start: the rounded size before the file system, offset 0 for a larger update, and the file system itself for one that is not atomic. |
| Updater.UpdaterClass.FileSystemFits | cores/esp8266/Updater.cpp:141-145 | Without wrap-around, a file system update has room if and only if it ends within the file system. |
| Updater.UpdaterClass.StartIsAligned | cores/esp8266/Updater.cpp:116-157 | The start address of every update is a sector border. |
| Updater.UpdaterClass.Write | cores/esp8266/Updater.cpp:438-469 | For any chunk: not running, too much, accepted, failed. Accepted keeps accepted bytes = staged bytes ++ buffer; each other outcome has its error code and touches only the update, and the count returned tells which it was. |
| Updater.UpdaterClass.WriteFullBuffers | cores/esp8266/Updater.cpp:449-459 | The loop over full buffers accepts a prefix of the chunk and leaves what fits the buffer. |
| Updater.EmptyWriteHarmlessExactly | cores/esp8266/Updater.cpp:460-468 | An empty write after the last byte flushes an empty buffer: it changes flash unless the size is not a multiple of the sector size, the sector behind is not in flash, or is already erased. |
| Updater.UpdaterClass.SetMd5 | cores/esp8266/Updater.cpp:205-212 | A hash is taken exactly if it has 32 characters. |
| Updater.SameTextExactly | cores/esp8266/Updater.cpp:330-335 | Hash texts match if and only if they have equal lengths and at every index the same character or the same letter in the other case. |
| Updater.HeaderErrorExactly | cores/esp8266/Updater.cpp:498-521 | A header that begins 0x1f 0x8b passes; any other that does not begin with 0xe9 is a magic byte error; and of the rest exactly those fail whose size code stands for a size above that of the part. |
| Updater.SizeReadBack | cores/esp8266/Esp.cpp:334-353 | The size read back for a code is the one that the image builder writes that code for, and for no other code any. |
| Updater.UpdaterClass.VerifyEnd | cores/esp8266/Updater.cpp:487-528 | Success exactly for a header that fits the part, unless a read fails; else the error is that of the header. |
| Updater.UpdaterClass.Order | cores/esp8266/Updater.cpp:346-369 | The copy command for these addresses is left in RTC memory. |
| Updater.UpdaterClass.CompleteIsStaged | cores/esp8266/Updater.cpp:377-436 | A complete application update is staged in full, was hashed in full, and erased exactly its sectors once each. |
| Updater.UpdaterClass.End | cores/esp8266/Updater.cpp:214-375 | `end(false)` is true exactly for a complete update whose hash and header hold, and only then a command is left. With a hash announced, success means equal lengths and at every index the same character or the same letter in the other case; any other text gives false with the hash error, a bad header its own error, and RTC memory stays. |
| Updater.UpdaterClass.EndRemaining | cores/esp8266/Updater.cpp:214-375 | `end(true)`, with no SPI failure after its flush: before any byte is staged it fails. If the rest of the buffer got into flash, the update is staged at the size written, and it is true exactly if hash and header pass, with the command to copy that size. If not, only the sectors of the update were touched, and it is true exactly if the hash so far and the header at flash offset 0 pass, with a command to copy nothing. Success means that an announced hash is the same text but for the case of letters; a wrong one gives the hash error. |
| EndToEnd.WriteAll | cores/esp8266/Updater.cpp:438-469 | For every way of cutting an image into writes, an update still running has accepted exactly the image; if no write is empty, only the sectors of the update are touched, whether it survives or not. |
| EndToEnd.RoomBeforeFileSystem | cores/esp8266/Updater.cpp:116-140 | A successful `begin` puts the update behind the rounded sketch; it ends at the file system if and only if its size is at most all of flash before that, which a sketch that was found ensures for sizes whose rounding does not wrap. |
| EndToEnd.TooLargeIsAccepted | cores/esp8266/Updater.cpp:116-140 | The failure, for every larger size up to 0xfffff000: if no sketch is found, `begin` accepts it, and the update starts at flash offset 0 and runs into the file system. |
| EndToEnd.Stage | cores/esp8266/Updater.cpp:68-469 | `begin`, any writes, `end(false)`: true means the image is staged with the command to copy it, and an announced hash was that of the bytes fed, character for character but for case. False leaves RTC memory as it was. In every outcome, if no write is empty, nothing outside the update has changed, which lies behind the rounded sketch and, if one was found and the size does not wrap, ends at the file system. With `begin` in order, no empty write, the size announced, room and no SPI failure, the mode byte written is that of the flash part (but for an update at offset 0), the answer is true exactly if hash and header are right, and otherwise the error says which is wrong. |
| EndToEnd.CopyInstalls | bootloaders/eboot/eboot.c:143-239 | Copying the staged image installs it at the start of flash, whether or not the two overlap. |
| EndToEnd.Reboot | bootloaders/eboot/eboot.c:241-317 | After staging a plain image, a boot without SPI failures leaves flash [0,size) equal to the image but for its mode byte and nothing else changed, loadable or not, and starts it if it is loadable; with failures, anything started is that image. |
| EndToEnd.RebootAfterFalseSuccess | bootloaders/eboot/eboot.c:241-317 | After such a command, whatever the bus does, a plain boot changes nothing in flash, clears the command, and starts what was there. |
| EndToEnd.InstalledFirmware | cores/esp8266/Esp.cpp:467-481 | Installed firmware loads as built, its size is read back as the length of the file, and its seal holds exactly when the mode byte was not changed on the way. |
| EndToEnd.UpdateFirmware | cores/esp8266/Updater.cpp:68-469 | The whole way: for every firmware file and every split, if staging reports success, the reboot clears the command, and what a plain boot starts is the program of the file, with exactly the segments that belong in RAM loaded, in order; with a plain file and without SPI failures it does start. With `begin` in order, room, no empty write and no SPI failure, staging reports success exactly if hash and header are right. |
| EndToEnd.UpdateSurvivesResets | bootloaders/eboot/eboot.c:259-300 | Without SPI failures, any number of resets before the command is cleared still ends with a plain image installed, provided the staged image does not overlap its destination. |
| AesUnwrap.UnwrapUndoesWrap | cores/esp8266/aes_unwrap.cpp:128-147 | For every cipher bijection, key size and step count, the unwrap steps undo the wrap steps of section 2.2.1 of RFC 3394. |
| AesUnwrap.WrapUndoesUnwrap | cores/esp8266/aes_unwrap.cpp:128-147 | And the wrap steps undo the unwrap steps. |
| AesUnwrap.AcceptedExactlyWhenWrapped | cores/esp8266/aes_unwrap.cpp:113-161 | For up to 42 registers the result is the plaintext with the right initial value if and only if the input is its wrap. |
| AesUnwrap.WrapByShifting | cores/esp8266/aes_unwrap.cpp:122-147 | The wrap that is undone, with its indexed registers, is the shifting form of section 2.2.1 of RFC 3394, for every key size and any cipher. |
| AesUnwrap.RejectedBeyondFortyTwo | cores/esp8266/aes_unwrap.cpp:137-140 | From 43 registers on, where the counter needs more than one byte, every key wrapped with the identity cipher is rejected. |
| AesUnwrap.Turn | cores/esp8266/aes_unwrap.cpp:137-146 | One turn of the inner loop is one unwrap step, in place. |
| AesUnwrap.AllTurns | cores/esp8266/aes_unwrap.cpp:128-147 | Both countdown loops together are the 6n unwrap steps. |
| AesUnwrap.Unwrap | cores/esp8266/aes_unwrap.cpp:113-161 | -1 without memory; else the plaintext is stored and 0 returned if and only if, for n up to 42, the ciphertext is its wrap; on -1 it is the wrap of nothing. |
| DhcpPool.NextHost | cores/esp8266/LwipDhcpServer.cpp:1241-1241 | On network-order words, the next address is the next host below 255. |
| DhcpPool.NextBeyond | cores/esp8266/LwipDhcpServer.cpp:1241-1241 | At host 255 it is host 0 of another network. |
| DhcpPool.ScanFindsLowest | cores/esp8266/LwipDhcpServer.cpp:1212-1246 | The scan ends at the lowest address no other station holds. |
| DhcpPool.LowestFreeAddress | cores/esp8266/LwipDhcpServer.cpp:1212-1268 | A station that asks for no address gets the lowest one no other station holds, and 0 only when the range is full, if the range ends below host 255 or is not full. |
| DhcpPool.UpdateAnyKeepsSound | cores/esp8266/LwipDhcpServer.cpp:1301-1366 | Such a request keeps the pool strictly ascending, in range, one node per station. |
| DhcpPool.UpdateWantedKeepsSound | cores/esp8266/LwipDhcpServer.cpp:1270-1366 | So does a request for an address in range. |
| DhcpPool.LeaveKeepsSound | cores/esp8266/LwipDhcpServer.cpp:1132-1179 | So does a station that leaves. |
| DhcpPool.EveryRunIsSound | cores/esp8266/LwipDhcpServer.cpp:1132-1371 | Over every run of such messages from an empty pool, so no two stations hold the same address. |
| DhcpPool.AnswerIsRecorded | cores/esp8266/LwipDhcpServer.cpp:1181-1371 | An address that is answered is recorded for the station that asked. |
| DhcpPool.GrantedLease | cores/esp8266/LwipDhcpServer.cpp:1270-1371 | What is granted is the address asked for, if one was, and is recorded online, for the whole lease time, static only if asked for and not just renewed. |
| DhcpPool.OthersKeepTheirLeases | cores/esp8266/LwipDhcpServer.cpp:1181-1371 | A request leaves the leases of all other stations alone, but for an offline one on the very address granted, and adds none for them. |
| DhcpPool.LeavingIsLocal | cores/esp8266/LwipDhcpServer.cpp:1132-1179 | A station that leaves changes its own lease only. |
| DhcpLeases.WantedExactly | cores/esp8266/LwipDhcpServer.cpp:1270-1366 | A request for an address in range is granted if and only if no other station has it online. A refusal answers 0 and changes nothing. After a grant `renew` is true exactly if the station had that address, and the leases are the one granted and all those of other stations on other addresses. |
| DhcpLeases.AnyExactly | cores/esp8266/LwipDhcpServer.cpp:1212-1366 | A request for any address gets the lowest address of the range that no other station has, never as a renewal, and is refused if and only if there is none. |
| DhcpLeases.AnswersExactly | cores/esp8266/LwipDhcpServer.cpp:1181-1371 | Both together, with the broadcast address refused: what every request does to a sound pool. |
| DhcpLeases.LeaveExactly | cores/esp8266/LwipDhcpServer.cpp:1132-1179 | A station that leaves loses its lease if that is static or if it is forced, else the lease goes offline and stays otherwise the same; all other leases stay. |
| DhcpLeases.LeasesDetermine | cores/esp8266/LwipDhcpServer.cpp:207-248 | Two sound pools with the same leases are the same list. |
| DhcpPool.WantedKeepsSoundExactly | cores/esp8266/LwipDhcpServer.cpp:1341-1358 | A request for a particular address keeps the pool sound if and only if the address is in range, or above it and the station is new. |
| DhcpPool.LowRequestMakesDuplicates | cores/esp8266/LwipDhcpServer.cpp:1341-1358 | One request below the range makes the server give the next newcomer an address that is in use. |
| DhcpPool.AnswerRightExactly | cores/esp8266/LwipDhcpServer.cpp:1246-1268 | For any range of a /24 network, that answer is right (and a full pool left alone) if and only if the range ends below host 255 or is not full. |
| DhcpPool.FullRangeUpTo255 | cores/esp8266/LwipDhcpServer.cpp:1246-1268 | A full range that ends at host 255 answers a newcomer with host 0 of the next network instead of 0. |
| DhcpPool.RangeAfterInit | cores/esp8266/LwipDhcpServer.cpp:815-865 | After `init_dhcps_lease` the range is not empty, lies in the /24 network of the server and leaves the server out. |
| DhcpPool.InitExactly | cores/esp8266/LwipDhcpServer.cpp:815-865 | A configured range is kept if and only if it lies in the network of the server, is not empty, has at most 101 addresses and leaves the server out; otherwise the 100 addresses above a server below host 128, or below any other, are taken. |
| DhcpPool.SetAcceptsWhatInitKeeps | cores/esp8266/LwipDhcpServer.cpp:959-1014 | `set_dhcps_lease` accepts a range exactly if there is a server that is not running and `init_dhcps_lease` keeps the range, and a refusal leaves the old one. |
| DhcpServer.DhcpServer.NodeInsert | cores/esp8266/LwipDhcpServer.cpp:207-248 | Relinking keeps one acyclic chain and inserts before the first greater address. |
| DhcpServer.DhcpServer.NodeRemove | cores/esp8266/LwipDhcpServer.cpp:256-285 | Relinking keeps one acyclic chain without exactly that node. |
| DhcpServer.DhcpServer.ScanList | cores/esp8266/LwipDhcpServer.cpp:1212-1244 | The one loop over the list finds the node of the station, the node of the address and the free address, as defined on the list of leases. |
| DhcpServer.DhcpServer.ClientUpdate | cores/esp8266/LwipDhcpServer.cpp:1181-1371 | The linked list, the answer and the renew flag become what the function on lease lists says, for every pool, station and address; for a sound pool, an address in range is granted if and only if no other station has it online, and the leases, answer and flag are then those of a grant or a refusal. |
| DhcpServer.DhcpServer.ClientLeave | cores/esp8266/LwipDhcpServer.cpp:1132-1179 | The linked list becomes what the function on lease lists says; for a sound pool the own lease is removed or goes offline, and all others stay. |
| Schedule.Scheduler.GetFn | cores/esp8266/Schedule.cpp:57-74 | An item comes from the free list first, else from memory, and never beyond 32. |
| Schedule.Scheduler.Recycle | cores/esp8266/Schedule.cpp:76-81 | The item becomes the head of the free list, emptied; queue and free list stay disjoint. |
| Schedule.Scheduler.ScheduleFunction | cores/esp8266/Schedule.cpp:84-105 | The function is appended exactly if it is not empty and an item can be had; queue and free list stay disjoint chains that together hold the counted items, at most 32. |
| Schedule.Scheduler.RemoveFirst | cores/esp8266/Schedule.cpp:180-192 | The first item goes from the queue to the free list. |
| Schedule.Scheduler.RunScheduledFunctions | cores/esp8266/Schedule.cpp:168-199 | The loop watched for any number of turns, whatever interrupts and callbacks schedule at every unlocked point: its calls, its queue and whether it is over are those of the turns it makes. If functions wait at entry it ends after them, has called exactly these, once each and in order, and leaves the later ones waiting. |
| Schedule.NothingIsLostExactly | cores/esp8266/Schedule.cpp:84-199 | For requests of functions with memory at hand: what waits after a run is what waited before, less what was called, and all that was requested meanwhile, in order, if and only if at each point of the run no more than 32 wait and are requested. |
| Schedule.RefusedExactly | cores/esp8266/Schedule.cpp:57-74 | A request of a function with memory at hand is refused if and only if 32 functions wait. |
| ScheduleHistory.ItemsAreHighWater | cores/esp8266/Schedule.cpp:57-81 | Over every history of requests and calls, the items, idle ones included, are as many as functions have waited at once, and never more than 32. |
| ScheduleHistory.AcceptedExactly | cores/esp8266/Schedule.cpp:57-105 | So a request is accepted if and only if its function is not empty and fewer wait than have waited before, or fewer than 32 and memory can be had. |
| Schedule.NeverMoreItems | cores/esp8266/Schedule.cpp:57-74 | Over any run and any requests there are never more than 32 items. |
| Schedule.CallsEntryExactly | cores/esp8266/Schedule.cpp:170-178 | The run calls exactly the functions waiting at entry if and only if there are some, or nothing requested between the look at the last item and the loop is accepted. |
| Schedule.NoneAcceptedExactly | cores/esp8266/Schedule.cpp:84-105 | Requests leave a queue as it is if and only if none of them is accepted. |
| Schedule.EmptyEntryNeverEnds | cores/esp8266/Schedule.cpp:170-175 | A function that comes in then and schedules itself again is called at every turn, for any number of turns, and the loop is never over. |
| Recurrent.Recurrent.Register | cores/esp8266/Schedule.cpp:108-139 | Exactly a non-empty function with memory is appended with its timer; the cached grain is dropped. |
| Recurrent.Recurrent.Ditch | cores/esp8266/Schedule.cpp:239-264 | The function is unlinked, the last pointer stays the true last node, the grain is dropped. |
| Recurrent.Recurrent.Check | cores/esp8266/Schedule.cpp:235-239 | The function is called exactly if its alarm rings or its timer has expired, and its timer is polled once. |
| Recurrent.Recurrent.RunScheduledRecurrentFunctions | cores/esp8266/Schedule.cpp:201-282 | Each function registered at entry is checked once in order; the list becomes the kept ones, in order, followed by those registered meanwhile, unvisited; a recursive call does nothing. |
| Recurrent.KeptInOrder | cores/esp8266/Schedule.cpp:228-279 | What is kept are functions of the entry list in strictly ascending position. |
| Recurrent.KeptExactly | cores/esp8266/Schedule.cpp:239-239 | A function is kept if and only if it was not called or returned true. |
| RecurrentRuns.CalledInOrder | cores/esp8266/Schedule.cpp:228-279 | The calls of a run are those of functions of the entry list in strictly ascending position. |
| RecurrentRuns.CalledExactly | cores/esp8266/Schedule.cpp:236-239 | A function is called if and only if its alarm rings or its timer has expired. |
| RecurrentRuns.StaysPolled | cores/esp8266/Schedule.cpp:228-279 | Over any number of runs, a function that is not removed is still in the list with its timer polled once at each run, and at the place after the functions before it that were kept. |
| RecurrentRuns.CalledOncePerPeriod | cores/esp8266/Schedule.cpp:108-239 | Over any sequence of runs, a function that stays registered is called by a run if and only if its alarm rings or a period, counted from the clock at its registration, has ended since the run before. |
| RecurrentRuns.CalledAlways | cores/esp8266/PolledTimeout.h:245-250 | With an interval of 0 it is called at every run. |
| Grain.GcdDivisors | cores/esp8266/Schedule.cpp:145-150 | The common divisors of two numbers are exactly the divisors of their gcd. |
| Grain.GcdOfAll | cores/esp8266/Schedule.cpp:145-150 | A number divides the grain in microseconds if and only if it divides every interval. |
| Grain.ToMillisRoundsUp | cores/esp8266/Schedule.cpp:150-152 | The grain in milliseconds is the least that covers it. |
| Grain.ComputeGrain | cores/esp8266/Schedule.cpp:141-166 | Computed without interruption, the cached grain is the millisecond round-up of the gcd of all intervals. |
| Grain.RegisterKeepsGrain | cores/esp8266/Schedule.cpp:108-139 | Registering keeps the cached grain missing or right. |
| Grain.RunKeepsGrain | cores/esp8266/Schedule.cpp:201-282 | A run keeps the cached grain missing or right. |
| Grain.ComputeGrainInterrupted | cores/esp8266/Schedule.cpp:141-166 | With functions registered between any two reads of the list and before the store: the grain stored is that of the list read, and right for the list as it then is if and only if it is a millisecond at most or all intervals that came late are multiples of the gcd read. |
| Grain.GrainRightExactly | cores/esp8266/Schedule.cpp:145-152 | The condition itself, for every list read and every list that came late. |
| Grain.StaleGrain | cores/esp8266/Schedule.cpp:141-155 | An instance: 2 ms were computed, and an interval of 1 ms came late. |
| Grain.IntervalAsRequested | cores/esp8266/Schedule.cpp:108-122 | Up to `timeMax()` the interval kept is the one asked for. |
| Grain.BeyondTimeMax | cores/esp8266/Schedule.cpp:112-112 | Beyond it, which the assertion lets through although its comment says 26.8 s, the timer never fires, or always if and only if the ticks wrap to 0. |
| Grain.CalledAtEveryRun | cores/esp8266/Schedule.cpp:112-112 | At 80 MHz an interval of 2^28 microseconds is such a case. |
| PolledTimeout.Units | cores/esp8266/PolledTimeout.h:94-138 | The compensation and multipliers of the four units in use. |
| PolledTimeout.ToTicksExact | cores/esp8266/PolledTimeout.h:121-130 | Up to `timeMax()` the conversion to ticks does not wrap. |
| PolledTimeout.TimeoutRoundTrip | cores/esp8266/PolledTimeout.h:130-131 | Up to `timeMax()` milliseconds and microseconds survive the way to ticks and back. |
| PolledTimeout.NanosRoundDown | cores/esp8266/PolledTimeout.h:130-131 | Nanoseconds come back at most 13 lower. |
| PolledTimeout.Timeout.Reset | cores/esp8266/PolledTimeout.h:185-197 | Up to the maximum the timer waits exactly the ticks of the timeout; beyond it a poll answers true if and only if the ticks wrap to 0. |
| PolledTimeout.Timeout.ResetAndSetExpired | cores/esp8266/PolledTimeout.h:209-214 | A poll at once answers true, whatever the timeout and the clock, unless the timeout never expires; the timeout stays. |
| PolledTimeout.Timeout.ExpiredRetrigger | cores/esp8266/PolledTimeout.h:245-258 | The 32-bit arithmetic moves the start on by the whole periods elapsed. |
| PolledTimeout.NeverDrifts | cores/esp8266/PolledTimeout.h:245-258 | Over any run of polls and clock wraps, each poll less than 2^32 ticks behind the stored start, the start is the first start plus floor(elapsed / period) periods. |
| PolledTimeout.AnswersAtBoundaries | cores/esp8266/PolledTimeout.h:235-258 | And a poll answers true exactly when a new period has begun since the poll before. |
| PolledTimeout.AnswerRightExactly | cores/esp8266/PolledTimeout.h:235-258 | Without that bound the answer is right if and only if the clock has not wrapped to less than a period. |
| StreamSend.BytesConserved | cores/esp8266/StreamSend.cpp:102-352 | On all three paths, whatever the ends announce, accept and deliver and whenever time runs out, the output gets exactly the first `written` source bytes; the source loses one byte more on meeting the delimiter, and on a write error the byte, or part of the block of at most 64, that was read. |
| StreamSend.DelimiterDropped | cores/esp8266/StreamSend.cpp:102-267 | With an output that takes what it announces, no delimiter is moved and the one byte dropped is the delimiter, as the path takes it: `memchr` looks for its low byte. |
| StreamSend.PeekHitExactly | cores/esp8266/StreamSend.cpp:131-158 | The byte the peek path drops is the delimiter if and only if the output took all bytes before it. |
| StreamSend.ReferenceMeans | cores/esp8266/StreamSend.cpp:191-267 | The plain transfer moves the longest prefix up to the limit, the end or the delimiter, and takes the delimiter only below the limit. |
| StreamSend.TurnFollowsExactly | cores/esp8266/StreamSend.cpp:112-331 | A turn without timeout keeps to the plain transfer, for the delimiter as the path takes it, if and only if it fits: an end with nothing to offer can wait, and a write takes all before a delimiter in sight (peek path), the byte read, room or not (byte path), or the block read. |
| StreamSend.HonestPeekFits | cores/esp8266/StreamSend.cpp:112-168 | With an output that takes what it announces, the peek path fits whenever neither end is at its end. |
| StreamSend.HonestByteFitsExactly | cores/esp8266/StreamSend.cpp:204-246 | The byte path then fits if and only if the peek path does and there is room, nothing to read, the delimiter next, or a write that takes a byte all the same. |
| StreamSend.NoRoomLosesAByte | cores/esp8266/StreamSend.cpp:217-232 | For every output that is full for the moment and can wait, the peek path waits and the byte path reads a byte and loses it. |
| StreamSend.RunIsReferenceExactly | cores/esp8266/StreamSend.cpp:102-352 | Without timeouts and with as many productive turns as bytes, idle turns in between or not, a path ends as the plain transfer, for the delimiter as the path takes it, if and only if every turn fits where the loop has come to. |
| StreamSend.PathsAgree | cores/esp8266/StreamSend.cpp:102-352 | So for every limit, and for two paths that take the delimiter alike, where one path fits throughout, another moves the same bytes if and only if it fits throughout. |
| StreamSend.AgreeExactly | cores/esp8266/StreamSend.cpp:137-222 | The peek and the byte path agree on all data and all fitting runs if and only if the delimiter is below 256: `memchr` looks for its low byte, the byte path for all of it. |
| StreamSend.PeekStep | cores/esp8266/StreamSend.cpp:112-168 | One turn of the peek loop, in place on source and output. |
| StreamSend.ByteStep | cores/esp8266/StreamSend.cpp:204-246 | One turn of the byte loop. |
| StreamSend.BlockStep | cores/esp8266/StreamSend.cpp:281-331 | One turn of the block loop. |
| StreamSend.Send | cores/esp8266/StreamSend.cpp:102-352 | The loops do what the run of turns says, for every sequence of turns. |
| StreamSend.TurnStopsExactly | cores/esp8266/StreamSend.cpp:112-331 | Why a turn ends a loop, as conditions on what the ends show: nothing to read or no room with an end that cannot wait, the delimiter met, an error, or the time over. |
| StreamSend.ErrorsExactly | cores/esp8266/StreamSend.cpp:217-325 | A run ends with a read error if and only if at one of its turns a block that is wanted cannot be read, and with a write error if and only if at one of them a byte, or some of a block, is not taken. |
| StreamSend.SendGeneric | cores/esp8266/StreamSend.cpp:65-100 | The peek path is taken exactly with a peek buffer, and the byte path without one for a delimiter. With fitting turns, no timeouts and enough productive turns, what is moved is the plain transfer for the limit and the delimiter as the path takes it; with an output that takes what it announces, no byte moved is the delimiter and a dropped byte is it. Each report other than success is given under its exact condition. |
| StringReplace.Str.Strstr | cores/esp8266/WString.cpp:798-804 | The first match from a place on, in a text that ends with a NUL. |
| StringReplace.Str.ReplaceSame | cores/esp8266/WString.cpp:797-801 | In place, equals leftmost replacement without overlap. |
| StringReplace.Str.ReplaceShorter | cores/esp8266/WString.cpp:802-813 | The in-place compaction equals leftmost replacement without overlap, with the length and the NUL right. |
| StringReplace.Str.LastIndexOf | cores/esp8266/WString.cpp:738-752 | The last match at or before an index, or -1. |
| StringReplace.Str.ChangeBuffer | cores/esp8266/WString.cpp:228-266 | The text is kept, and success, exactly for a size within the limit and with memory, gives room for the length asked. |
| StringReplace.Str.SizeOfResult | cores/esp8266/WString.cpp:815-821 | The size counted is the length of the result; an unchanged size means an unchanged text. |
| StringReplace.Str.ReplaceFromRight | cores/esp8266/WString.cpp:824-833 | For every pattern, the loop from the right leaves the text that the function growing from the right gives, if that fits the buffer. |
| StringReplace.Str.Replace | cores/esp8266/WString.cpp:791-835 | All branches: leftmost replacement without overlap, with the length below capacity and a NUL at the end, for every pattern if the replacement is not longer and for every one without a clash if it is; the old text if and only if a longer result neither fits the buffer nor can get memory for a size within the limit. |
| StringReplace.ReplacedPieces | cores/esp8266/WString.cpp:791-813 | What replacing means: a text and its result are the same pieces, joined by the pattern and by the replacement, and the pieces end at the leftmost matches. |
| StringReplace.GrowthRightExactly | cores/esp8266/WString.cpp:824-833 | For a longer replacement, growing from the right is leftmost replacement for all texts if and only if no proper end of the pattern begins the pattern or the replacement. |
| StringReplace.SeamGrows | cores/esp8266/WString.cpp:815-833 | If an end of the pattern begins the replacement, there is a text for which more is replaced than was counted. |
| StringReplace.OverlapDiffers | cores/esp8266/WString.cpp:824-833 | If an end of the pattern begins only the pattern itself, there is a text for which another match is replaced. |
| IpAddress.PrintThenParse4 | cores/esp8266/IPAddress.cpp:65-164 | Every IPv4 address that is set is read back as printed. |
| IpAddress.PrintThenParse6Exactly | cores/esp8266/IPAddress.cpp:133-249 | Every IPv6 address that is set is read back as printed if and only if it does not begin with two to six zero groups before a group that is not zero. |
| IpAddress.ZerosInTheMiddle | cores/esp8266/IPAddress.cpp:198-249 | Addresses whose first zero group is one of groups 1 to 6 are all read back as printed. |
| IpAddress.StandardTextExactly | cores/esp8266/IPAddress.cpp:133-156 | The text of an IPv6 address that is set is one of the two forms of section 2.2 of RFC 4291, all groups or groups around one `::` that stands for zeros only, if and only if it does not begin with one to six zero groups, its last group is not its only zero, and its first group is not its only other one. |
| IpAddress.TextOf | cores/esp8266/IPAddress.cpp:141-153 | The text itself for an address that does not begin with zero: groups with colons, with one colon too many if only the last is zero, or groups, `::` and the rest. |
| IpAddress.LeadingText | cores/esp8266/IPAddress.cpp:141-153 | The text itself for one that does: a single colon in front for one to six zero groups, `::` for seven. |
| IpAddress.LeadingZeros | cores/esp8266/IPAddress.cpp:141-153 | One leading zero group is read back, two to six are rejected. |
| IpGrammar.Takes4Exactly | cores/esp8266/IPAddress.cpp:65-106 | For every text: accepted if and only if it is four texts of digits with dots between them, each a number up to 255, with these numbers as the address; a text may be empty. |
| IpGrammar.DigitsExactly | cores/esp8266/IPAddress.cpp:206-211 | Which characters are digits to the IPv6 parser, and of what value: letters up to z in either case. |
| IpGrammar.Takes6Exactly | cores/esp8266/IPAddress.cpp:198-249 | For every text: accepted if and only if it is eight texts of such digits with colons between them, or up to eight around one pair of colons where zeros are put, each a number up to 0xffff to base 16, with these as the groups. |
| IpGrammar.DigitsAreCanonical | cores/esp8266/IPAddress.cpp:145-159 | A number is printed in small letters and without leading zeros, and the text stands for it. |
| IpGrammar.TextOf4 | cores/esp8266/IPAddress.cpp:136-163 | The text of an IPv4 address: four numbers with dots between them, but for the two addresses that count as unset. |
| IpAddress.IPAddress.FromString4 | cores/esp8266/IPAddress.cpp:65-106 | The loop with its accumulator accepts and stores what the parser on texts says. |
| IpAddress.IPAddress.FromString6 | cores/esp8266/IPAddress.cpp:198-249 | The same for IPv6, with the groups written in place. |
| IpAddress.IPAddress.MoveToEnd | cores/esp8266/IPAddress.cpp:240-245 | The in-place shift moves the groups behind `::` to the end and fills the gap with zeros. |
| IpAddress.IPAddress.FromAnyString | cores/esp8266/IPAddress.cpp:54-63 | IPv4 is tried first, then IPv6. |
| IpAddress.IPAddress.PrintTo | cores/esp8266/IPAddress.cpp:133-164 | The loops with the zero counter write the text of the address. |
| Cbuf.Cbuf.Available | cores/esp8266/cbuf.cpp:70-75 | The number of bytes in the queue. |
| Cbuf.Cbuf.RoomLeft | cores/esp8266/cbuf.cpp:81-86 | Room and available bytes are always one less than the size. |
| Cbuf.Cbuf.Write | cores/esp8266/cbuf.cpp:136-143 | One byte is appended, or none if the queue is full. |
| Cbuf.Cbuf.WriteAll | cores/esp8266/cbuf.cpp:145-159 | As many bytes as fit are appended in order, across the wrap. |
| Cbuf.Cbuf.Read | cores/esp8266/cbuf.cpp:111-118 | The first byte is taken, or -1. |
| Cbuf.Cbuf.ReadAll | cores/esp8266/cbuf.cpp:120-134 | The first bytes are taken in order, across the wrap. |
| Cbuf.Cbuf.Peek | cores/esp8266/cbuf.cpp:88-93 | The first byte, or -1. |
| Cbuf.Cbuf.PeekAll | cores/esp8266/cbuf.cpp:95-109 | The first bytes in order, across the wrap, nothing changed. |
| Cbuf.Cbuf.Remove | cores/esp8266/cbuf.cpp:166-180 | The first bytes are dropped; the result is what is left. |
| Cbuf.Cbuf.ResizeTo | cores/esp8266/cbuf.cpp:37-68 | The size changes exactly if the data fits and memory is there, and no data is ever lost. |
| Cbuf.Cbuf.PerformAll | cores/esp8266/cbuf.cpp:33-180 | Every interleaving of the operations does to the buffer what it does to a bounded queue of size - 1 bytes. |
| Cbuf.StepMeans | cores/esp8266/cbuf.cpp:33-180 | What each operation on that queue comes to: as much is put in, handed out or dropped as was asked for and is possible, in order. |
| Cbuf.OrderKept | cores/esp8266/cbuf.cpp:33-180 | Over every run, what is gone followed by what is left is what was there followed by what was put in. |
| Cbuf.ReadersGetAll | cores/esp8266/cbuf.cpp:111-134 | Without removals, flushes and peeks, the readers got exactly what is gone. |

## Left out

- Updater.UpdaterClass.End: the branch that verifies a signature is not modelled.
- Updater.UpdaterClass.EndRemaining: neither is it here.
- Updater.UpdaterClass.Begin: LEDs, the update callbacks, sleep modes and the watchdog are not modelled; the flash size, the configured size and free memory are parameters.
- Updater.UpdaterClass.VerifyEnd: the variant built with `FLASH_MAP_SUPPORT`, which omits the check of the flash size, is not modelled.
- Eboot.CopyRaw: the verify mode is not modelled, and of the gzip branch only that it touches nothing below the destination; its result and the flash from there on are arbitrary.
- Eboot.Boot: the serial output, the watchdog and the jump itself are not modelled; `outcome` is what would be run.
- Image.GetSketchSize: the cache in a static variable is not modelled, the size is read each time; nor is the word alignment that `spi_flash_read` asks for, which the position does not have behind a segment whose size is not a multiple of 4.
- Image.CheckCrc: what a stored length that ends before the seal or behind flash leads to is arbitrary, since the original then reads what is not flash.
- FlashIo.FlashWrite: a null data pointer is not modelled, only the empty size that has the same effect.
- StringReplace.Str.Replace: a longer replacement that finds more matches from the right than were counted is not modelled, because the original then writes behind its buffer; neither are arguments that alias the target.
- StringReplace.Str.ReplaceFromRight: for the same reason a text that outgrows the buffer is not modelled.
- StringReplace.Str.ChangeBuffer: short texts that fit in the object itself are not modelled apart, all texts are in a buffer.
- Schedule.Scheduler.RunScheduledFunctions: a function that calls it recursively is not modelled.
- StreamSend.Send: the timeout is given by the turns and not computed from a clock; the three loops share one skeleton, each with its own turn.
- StreamSend.SendGeneric: the choice between the timeouts of the two ends is not modelled.
- IpAddress.IPAddress.FromString6: the octets and the groups are two fields here and share memory in the original; texts have no NUL inside.
- PolledTimeout.Units: floating point is exact here.
- The templated `write` and `writeStream` of the updater: the same buffering with other sources.
- DhcpPool.SetAcceptsWhatInitKeeps: the lease range is a value here, not a field of the server.
- `add_dhcps_lease`, DHCP packets, options and timers: `add_dhcps_lease` counts nodes and looks for no gaps, so it keeps the invariant of the pool only on a pool without gaps.
- MD5, AES, BearSSL and gzip themselves.
- `SPIEraseAreaEx`, `FS`, `HardwareSerial`, the network interfaces, `Crypto`, `base64`, tables and build scripts: wrappers, hardware or easy members.
