# u-blox firmware update tool, modelled in Dafny

This project models the host-side half of the u-blox firmware update tool
(version 21.05) and proves properties of the model. The tool talks the u-blox
binary protocol (UBX) to a GNSS receiver. It erases the receiver's flash
sector by sector, writes the image in 512-byte packets, tracks every
acknowledgement, and first checks and, if asked, patches the image and its
flash information structure (FIS).

There is one Dafny module per source file. Each module takes the form of its
source: a loop becomes a `method` with a `while` loop proved against a
recursive specification function, state updated in place becomes a `class`
with `modifies` clauses, and expressions become functions and lemmas.

- `Bytes` holds byte, 16- and 32-bit helpers; 32-bit wrap-around is written out with `%`.
- `Checksum` (checksum.c): the 8-bit Fletcher pair of UBX frames and the 32-bit-word pair used on images.
- `UbxMsg` (ubxmsg.c): frame creation, the frame check, and the scan of a byte buffer for the first valid frame.
- `Buffer` (receiver.c, platform.c): the receive buffer and the SPI read-back buffer, an array with a fill level, appended to and compacted with a `memmove` loop.
- `Platform` (platform.c):
  - the serial port as an abstract driver (incoming byte chunks, a log of written bytes, the accepted length of each write, a clock and the baud rate);
  - the SPI port with its read-back buffer;
  - the split of flash writes into sub-writes that skip runs of 0xFF.
- `Receiver` (receiver.c): the receive session, covering message reception with class/id filters, polling with retries, ACK/NAK correlation, baud-rate changes and autobaud.
- `Flash` and `FlashDescriptor` (flash.c): the block list, the address/sector/packet arithmetic and the `NxS` descriptor parser.
- `CLib`: `strtoul`, `strtol` and `atoi` as the code uses them (LP64 widths).
- `UpdateCore` (updateCore.c) specifies the update engine as pure functions over the sector and packet states.
  - The small step functions (`EraseStep`, `FreshStep`, `RetryStep`, `HandleAll` and their pieces) get no rows of their own below. Their contracts only keep the shape of the state. What they do is stated by the lemmas listed for them: erase and write ack handling, the erase and write scans, and the outcome of a round.
- `UpdateEngine` (updateCore.c): the engine as a class over arrays of slots. Each method is proved equal to the `UpdateCore` function for its step.
- `Update` (update.c): the hardware-generation lookup, the ROM tables, the compatibility rule, the packet count, the RAM-image transfer, the verify reply check and the marker address.
- `Image` (image.c): image validation (header magic, footer search, footer CRC, pointer masks, word checksum) and the padding of a loaded file.
- `MergeFis` and `MergeFisLoad` (mergefis.c): the CRC-32 table and loop, hex and decimal string conversion, XML attribute and child lookup, the FIS table edit, the sector getters, the merge with re-checksumming, and the byte work of `mergefis_load2`.
- `Yxml`, `YxmlStep`, `YxmlProps` and `YxmlParser` (yxml.c): the XML tokenizer.
  - `Yxml` gives its state machine as functions, one per group of states.
  - `YxmlStep` proves the invariant of the name stack and pointers for every state.
  - `YxmlProps` proves the line-end, attribute-value, entity, UTF-8 and end-tag properties.
  - `YxmlParser` is the imperative parser over the caller's stack buffer and is proved equal to the functions.
- `CmdLine` (main.c): argument lookup, `SetArgument`, `ParseArguments` and the exit code of `main`.

All source paths below are relative to the repository root.

## Model

| member | source | states |
|---|---|---|
| Bytes.EncodeLE32 | recipes-gnss/ublox/ublox-f9/src/firmwareUpdateTool_v21.05/src/ubxmsg.c:53-56 | the four bytes of a U4 written little-endian read back as the same value |
| Bytes.Patch | recipes-gnss/ublox/ublox-f9/src/firmwareUpdateTool_v21.05/src/mergefis.c:542-546 | overwriting bytes i.. of an image leaves its length and every other byte unchanged and holds the new bytes |
| Bytes.LE32OfPatch | recipes-gnss/ublox/ublox-f9/src/firmwareUpdateTool_v21.05/src/mergefis.c:542-546 | a word patched into an image reads back as the written value |
| Checksum.GetUbxChecksumU1 | recipes-gnss/ublox/ublox-f9/src/firmwareUpdateTool_v21.05/src/checksum.c:61-72 | the loop returns ck_a in the low byte as the byte sum mod 256 and ck_b in the high byte as the sum of the running ck_a values mod 256 |
| Checksum.U1ChecksumEmpty | recipes-gnss/ublox/ublox-f9/src/firmwareUpdateTool_v21.05/src/checksum.c:64-71 | over zero bytes the checksum is 0 |
| Checksum.U1SumsClosedForm | recipes-gnss/ublox/ublox-f9/src/firmwareUpdateTool_v21.05/src/checksum.c:64-70 | the stepwise pair equals the closed forms: the byte sum and the sum of prefix sums, each mod 256 |
| Checksum.U1SumsAppend | recipes-gnss/ublox/ublox-f9/src/firmwareUpdateTool_v21.05/src/checksum.c:66-70 | one more byte x advances ck_a by x and ck_b by the new ck_a, mod 256 |
| Checksum.GetUbxChecksumU4 | recipes-gnss/ublox/ublox-f9/src/firmwareUpdateTool_v21.05/src/checksum.c:33-48 | the loop over numBytes/4 words returns chk_a as the word sum mod 2^32 and chk_b as the sum of the running chk_a values mod 2^32; trailing bytes do not count |
| Checksum.CheckUbxChecksumU4 | recipes-gnss/ublox/ublox-f9/src/firmwareUpdateTool_v21.05/src/checksum.c:50-58 | TRUE exactly when the two words after the covered words hold the computed chk_a and chk_b |
| Checksum.U4SumsClosedForm | recipes-gnss/ublox/ublox-f9/src/firmwareUpdateTool_v21.05/src/checksum.c:38-45 | the 32-bit wrapping pair equals the unbounded word sum and weighted word sum taken mod 2^32 |
| Checksum.WeightedWordSumIsDirect | recipes-gnss/ublox/ublox-f9/src/firmwareUpdateTool_v21.05/src/checksum.c:43-44 | chk_b weights word k of n words by n - k |
| Checksum.U4SumsPrefix | recipes-gnss/ublox/ublox-f9/src/firmwareUpdateTool_v21.05/src/checksum.c:33-48 | the pair depends only on the words it covers |
| Checksum.StoredChecksumVerifies | recipes-gnss/ublox/ublox-f9/src/firmwareUpdateTool_v21.05/src/checksum.c:50-58 | storing the computed pair right after the covered words makes CheckUbxChecksumU4 succeed (checksum round trip) |
| Buffer.ByteBuffer.Clear | recipes-gnss/ublox/ublox-f9/src/firmwareUpdateTool_v21.05/src/receiver.c:58-63 | rcvClearBuffer: the buffer holds nothing and all of it is free |
| Buffer.ByteBuffer.Append | recipes-gnss/ublox/ublox-f9/src/firmwareUpdateTool_v21.05/src/receiver.c:239-242 | a driver read into pEnd appends the received bytes to the buffered ones |
| Buffer.ByteBuffer.Consume | recipes-gnss/ublox/ublox-f9/src/firmwareUpdateTool_v21.05/src/receiver.c:260-265 | the memmove after a message drops the first n bytes and keeps the rest in order at the front |
| UbxMsg.UbxCreateMessage | recipes-gnss/ublox/ublox-f9/src/firmwareUpdateTool_v21.05/src/ubxmsg.c:38-69 | the message is header, payload and checksum, PayloadSize + 8 bytes long |
| UbxMsg.FrameLayout | recipes-gnss/ublox/ublox-f9/src/firmwareUpdateTool_v21.05/src/ubxmsg.c:53-63 | bytes 0-5 are B5 62, class, id and the little-endian length; the payload follows verbatim; ck_a and ck_b are the checksum over class through payload |
| UbxMsg.CreatedFrameChecks | recipes-gnss/ublox/ublox-f9/src/firmwareUpdateTool_v21.05/src/ubxmsg.c:76-90 | every created frame is complete, passes UbxCheckCrc, carries its class, id and length, and is accepted by the scan when no longer than 2*8192 bytes |
| UbxMsg.FramePayload | recipes-gnss/ublox/ublox-f9/src/firmwareUpdateTool_v21.05/src/ubxmsg.c:59-60 | the payload of a created frame is recovered from it |
| UbxMsg.ValidFrameIn | recipes-gnss/ublox/ublox-f9/src/firmwareUpdateTool_v21.05/src/ubxmsg.c:92-181 | a valid frame stays valid at its offset inside a larger buffer |
| UbxMsg.UbxCheckCrc | recipes-gnss/ublox/ublox-f9/src/firmwareUpdateTool_v21.05/src/ubxmsg.c:76-90 | TRUE exactly when the two bytes after the payload equal ck_a and ck_b computed over class through payload |
| UbxMsg.UbxSearchMsg | recipes-gnss/ublox/ublox-f9/src/firmwareUpdateTool_v21.05/src/ubxmsg.c:92-181 | the scan's verdict and message start equal the search specification; a found message is a valid frame |
| UbxMsg.SearchSpec | recipes-gnss/ublox/ublox-f9/src/firmwareUpdateTool_v21.05/src/ubxmsg.c:99-179 | the reported offset is the first at which a valid frame stands; on failure at most two bytes remain, the frame there is incomplete, or an oversized header was just dropped |
| UbxMsg.SearchPassesOver | recipes-gnss/ublox/ublox-f9/src/firmwareUpdateTool_v21.05/src/ubxmsg.c:99-179 | the scan never moves past a position where a valid frame stands |
| UbxMsg.SearchVerdict | recipes-gnss/ublox/ublox-f9/src/firmwareUpdateTool_v21.05/src/ubxmsg.c:99-179 | where the scan stops a valid frame stands, or it gave up on too few bytes, an incomplete frame or an oversized header |
| UbxMsg.SearchFindsLeadingFrame | recipes-gnss/ublox/ublox-f9/src/firmwareUpdateTool_v21.05/src/ubxmsg.c:113-153 | a buffer that starts with a created frame yields it at offset 0 |
| UbxMsg.SearchFindsSingleFrame | recipes-gnss/ublox/ublox-f9/src/firmwareUpdateTool_v21.05/src/ubxmsg.c:113-153 | a buffer holding exactly one created frame yields it at offset 0 |
| UbxMsg.CorruptFrameSkipped | recipes-gnss/ublox/ublox-f9/src/firmwareUpdateTool_v21.05/src/ubxmsg.c:156-163 | a complete frame with a wrong checksum costs one byte and the scan goes on |
| UbxMsg.OversizedHeaderDropsOneByte | recipes-gnss/ublox/ublox-f9/src/firmwareUpdateTool_v21.05/src/ubxmsg.c:136-145 | a declared length beyond 2*8192 drops exactly one byte and ends the scan without a message |
| UbxMsg.SearchSkipsNoise | recipes-gnss/ublox/ublox-f9/src/firmwareUpdateTool_v21.05/src/ubxmsg.c:105-111 | bytes before the first sync pair are skipped |
| Flash.SectorAt | recipes-gnss/ublox/ublox-f9/src/firmwareUpdateTool_v21.05/src/flash.c:182-193 | sector blocksec of block b is sector Start(b) + blocksec of the flat sector list, and has that block's size |
| Flash.CursorStep | recipes-gnss/ublox/ublox-f9/src/firmwareUpdateTool_v21.05/src/flash.c:205-211 | advancing (block, blocksec) past one sector rolls over to the next block after Count sectors and keeps the cursor on the flat list |
| Flash.SkipFromSpec | recipes-gnss/ublox/ublox-f9/src/firmwareUpdateTool_v21.05/src/flash.c:179-194 | the offset loop stops at the first sector starting at or after the offset, and returns -1 when the flash ends first |
| Flash.SkipStep | recipes-gnss/ublox/ublox-f9/src/firmwareUpdateTool_v21.05/src/flash.c:180-194 | one pass of the offset loop adds the sector size and fails when the last block is passed |
| Flash.GetSectorNrForSize | recipes-gnss/ublox/ublox-f9/src/firmwareUpdateTool_v21.05/src/flash.c:169-214 | the two loops return the specification's sector count or -1 |
| Flash.CountFromSpec | recipes-gnss/ublox/ublox-f9/src/firmwareUpdateTool_v21.05/src/flash.c:196-212 | the counting loop returns the least number of sectors from the start sector whose sizes add up to FwSize, or -1 when the flash ends first |
| Flash.SectorNrForSizeLeast | recipes-gnss/ublox/ublox-f9/src/firmwareUpdateTool_v21.05/src/flash.c:169-214 | with offset 0 the result is the least n whose first n sectors hold FwSize bytes (0 for size 0); -1 exactly when the flash is smaller than FwSize |
| Flash.SectorNrForSizeOffset | recipes-gnss/ublox/ublox-f9/src/firmwareUpdateTool_v21.05/src/flash.c:179-212 | with a non-zero offset counting starts at the first sector at or after it; -1 when no such sector precedes the end |
| Flash.GetPacketNrForSector | recipes-gnss/ublox/ublox-f9/src/firmwareUpdateTool_v21.05/src/flash.c:216-253 | uniform flash: Sector * Size / PacketSize in U4; otherwise the packets of all preceding sectors, -1 beyond the flash |
| Flash.UniformPacketNr | recipes-gnss/ublox/ublox-f9/src/firmwareUpdateTool_v21.05/src/flash.c:221-251 | on a one-block flash whose sector size is a multiple of the packet size, the uniform formula equals the per-sector sum |
| Flash.AddrStep | recipes-gnss/ublox/ublox-f9/src/firmwareUpdateTool_v21.05/src/flash.c:285-306 | one pass of the address loop: stop when the sector end passes the target, -1 after the last sector, else count one more |
| Flash.GetSectorNrForAddress | recipes-gnss/ublox/ublox-f9/src/firmwareUpdateTool_v21.05/src/flash.c:255-308 | the loops return the specification's sector number for Address - Base + Offset, or -1 |
| Flash.AddrFromSpec | recipes-gnss/ublox/ublox-f9/src/firmwareUpdateTool_v21.05/src/flash.c:285-306 | the address loop returns the sector whose byte range holds the target, or -1 when the target lies beyond the flash |
| Flash.SectorNrForAddressSpec | recipes-gnss/ublox/ublox-f9/src/firmwareUpdateTool_v21.05/src/flash.c:255-308 | with offset 0 and positive sector sizes, the result r is the sector with PrefixSum(r) <= target < PrefixSum(r+1); -1 exactly when the target is at or past the flash size |
| Flash.PacketNrForAddress | recipes-gnss/ublox/ublox-f9/src/firmwareUpdateTool_v21.05/src/flash.c:310-317 | the packet number is the quotient of (Address - Base) mod 2^32 by PacketSize |
| Flash.BlockArr.ClearBlocks | recipes-gnss/ublox/ublox-f9/src/firmwareUpdateTool_v21.05/src/flash.c:460-468 | the block list becomes empty |
| Flash.BlockArr.AddBlock | recipes-gnss/ublox/ublox-f9/src/firmwareUpdateTool_v21.05/src/flash.c:470-489 | the new block is appended after the existing ones and NumBlocks grows by one |
| FlashDescriptor.Hex4RoundTrip | recipes-gnss/ublox/ublox-f9/src/firmwareUpdateTool_v21.05/src/flash.c:396 | the four "%04X" digits read back as the identifier |
| FlashDescriptor.KeyChars | recipes-gnss/ublox/ublox-f9/src/firmwareUpdateTool_v21.05/src/flash.c:396-405 | the search key "0x%04X-0x%04X" holds no '=' and no white space, so strchr finds the '=' after it |
| FlashDescriptor.KeyInjective | recipes-gnss/ublox/ublox-f9/src/firmwareUpdateTool_v21.05/src/flash.c:396-398 | distinct (ManId, DevId) pairs give distinct search keys, so a key names one device |
| FlashDescriptor.TrimEnd | recipes-gnss/ublox/ublox-f9/src/firmwareUpdateTool_v21.05/src/flash.c:421-426 | the trailing-space loop ends after the last non-space character of the line, dropping only white space |
| FlashDescriptor.Locate | recipes-gnss/ublox/ublox-f9/src/firmwareUpdateTool_v21.05/src/flash.c:398-426 | the located list lies within the text; none when the key, the '=' or the line end is missing |
| FlashDescriptor.Step | recipes-gnss/ublox/ublox-f9/src/firmwareUpdateTool_v21.05/src/flash.c:429-453 | a round of the parse loop that does not stall moves forward within the line; a block it reads has a non-zero count |
| FlashDescriptor.GetFlashOrganisation | recipes-gnss/ublox/ublox-f9/src/firmwareUpdateTool_v21.05/src/flash.c:331-458 | a missing descriptor returns FALSE with size and blocks unchanged; a found one appends its blocks (after clearing them when read from a file), sets the size to the U4 sum of Count * Size and returns whether any block is defined |
| FlashDescriptor.ParseOrganisation | recipes-gnss/ublox/ublox-f9/src/firmwareUpdateTool_v21.05/src/flash.c:428-453 | the parse loop appends the blocks of the list in order and sums their Count * Size in U4 arithmetic |
| FlashDescriptor.StepBlocks | recipes-gnss/ublox/ublox-f9/src/firmwareUpdateTool_v21.05/src/flash.c:431-452 | a round that reads "NxS" adds one block, one that reads "Nx" alone skips past the 'x', one that reads no "Nx" never ends |
| FlashDescriptor.SkipSeparators | recipes-gnss/ublox/ublox-f9/src/firmwareUpdateTool_v21.05/src/flash.c:447-450 | the loop skips exactly the white space and commas after a block |
| FlashDescriptor.AddToTotal | recipes-gnss/ublox/ublox-f9/src/firmwareUpdateTool_v21.05/src/flash.c:444 | adding one block's Count * Size keeps the size equal to the U4 total of the blocks so far |
| FlashDescriptor.RenderParses | recipes-gnss/ublox/ublox-f9/src/firmwareUpdateTool_v21.05/src/flash.c:429-453 | a list "N1xS1, N2xS2, ..." parses back to its blocks, each Size being S * 1024 |
| FlashDescriptor.ParseFrom | recipes-gnss/ublox/ublox-f9/src/firmwareUpdateTool_v21.05/src/flash.c:429-453 | from entry k on, the parse loop adds the blocks of the remaining entries |
| FlashDescriptor.ParseStep | recipes-gnss/ublox/ublox-f9/src/firmwareUpdateTool_v21.05/src/flash.c:431-452 | a round at entry k adds that entry's block and lands on the next entry or the end of the line |
| FlashDescriptor.DescriptorFound | recipes-gnss/ublox/ublox-f9/src/firmwareUpdateTool_v21.05/src/flash.c:396-453 | in a text whose first key line is "key ... = list" the organisation read is the list's blocks |
| FlashDescriptor.DescriptorShape | recipes-gnss/ublox/ublox-f9/src/firmwareUpdateTool_v21.05/src/flash.c:396-426 | a descriptor line built from a key, a gap, '=', blanks and a list has the key, '=' and list where the search finds them |
| FlashDescriptor.OrganisationOf | recipes-gnss/ublox/ublox-f9/src/firmwareUpdateTool_v21.05/src/flash.c:398-453 | the organisation is the blocks parsed from the located list |
| FlashDescriptor.LocateAt | recipes-gnss/ublox/ublox-f9/src/firmwareUpdateTool_v21.05/src/flash.c:398-426 | Locate returns the list bounds found by strstr, strchr, strspn, strpbrk and the trailing-space loop |
| FlashDescriptor.LocateFrom | recipes-gnss/ublox/ublox-f9/src/firmwareUpdateTool_v21.05/src/flash.c:398-426 | with the key first at i, '=' at q, the list from p to the line feed at c, Locate returns (p, c) |
| CLib.SpanInSpec | recipes-gnss/ublox/ublox-f9/src/firmwareUpdateTool_v21.05/src/flash.c:412 | strspn stops at the first character outside the set, all before it being in the set |
| CLib.SpanInAt | recipes-gnss/ublox/ublox-f9/src/firmwareUpdateTool_v21.05/src/flash.c:412 | a run of set characters ending at e gives strspn's result e |
| CLib.IndexOf | recipes-gnss/ublox/ublox-f9/src/firmwareUpdateTool_v21.05/src/flash.c:405 | strchr returns the first index holding c, or none when no later character is c |
| CLib.IndexOfAt | recipes-gnss/ublox/ublox-f9/src/firmwareUpdateTool_v21.05/src/flash.c:405 | the first c at n is strchr's result |
| CLib.FindAnyOf | recipes-gnss/ublox/ublox-f9/src/firmwareUpdateTool_v21.05/src/flash.c:414 | strpbrk returns the first index holding any of the characters, or none |
| CLib.FindAnyOfAt | recipes-gnss/ublox/ublox-f9/src/firmwareUpdateTool_v21.05/src/flash.c:414 | the first set character at n is strpbrk's result |
| CLib.FindFrom | recipes-gnss/ublox/ublox-f9/src/firmwareUpdateTool_v21.05/src/flash.c:398 | strstr returns the first place the key occurs, or none when it occurs nowhere |
| CLib.FindFromAt | recipes-gnss/ublox/ublox-f9/src/firmwareUpdateTool_v21.05/src/flash.c:398 | the first occurrence at n is strstr's result |
| CLib.DigitsEndSpec | recipes-gnss/ublox/ublox-f9/src/firmwareUpdateTool_v21.05/src/flash.c:432 | the digit run strtoul reads ends at the first non-digit |
| CLib.SkipSpacesSpec | recipes-gnss/ublox/ublox-f9/src/firmwareUpdateTool_v21.05/src/flash.c:432 | strtoul's leading white space ends at the first non-space |
| CLib.Dec | recipes-gnss/ublox/ublox-f9/src/firmwareUpdateTool_v21.05/src/flash.c:432 | a decimal rendering is a non-empty run of digits (used to state round trips) |
| CLib.DecRoundTrip | recipes-gnss/ublox/ublox-f9/src/firmwareUpdateTool_v21.05/src/flash.c:432 | the decimal value of the rendering of n is n |
| CLib.StrToUL | recipes-gnss/ublox/ublox-f9/src/firmwareUpdateTool_v21.05/src/flash.c:432 | strtoul(s, &end, 10) yields a value below 2^64 and an end that is the start (no digits) or after it |
| CLib.StrToL | recipes-gnss/ublox/ublox-f9/src/firmwareUpdateTool_v21.05/src/main.c:222 | strtol's value is clamped to [LONG_MIN, LONG_MAX] |
| CLib.Atoi | recipes-gnss/ublox/ublox-f9/src/firmwareUpdateTool_v21.05/src/main.c:286 | atoi's value is a 32-bit int, strtol's truncated |
| CLib.StrToULDec | recipes-gnss/ublox/ublox-f9/src/firmwareUpdateTool_v21.05/src/flash.c:432 | strtoul reads back a rendered number not followed by a digit and stops right after it |
| CLib.StrToULAt | recipes-gnss/ublox/ublox-f9/src/firmwareUpdateTool_v21.05/src/flash.c:438 | the same for a rendering found at any position of a string |
| CLib.AtoiDec | recipes-gnss/ublox/ublox-f9/src/firmwareUpdateTool_v21.05/src/main.c:286 | atoi and atol read back a rendered number below 2^31 |
| CLib.StrToLDecPrefix | recipes-gnss/ublox/ublox-f9/src/firmwareUpdateTool_v21.05/src/main.c:222 | strtol and atol read back a rendered number not followed by a digit |
| CmdLine.KnownArgsShape | recipes-gnss/ublox/ublox-f9/src/firmwareUpdateTool_v21.05/src/main.c:186-207 | every table entry is an option string starting with '-' bound to a known argument other than FILENAME |
| CmdLine.LookupAt | recipes-gnss/ublox/ublox-f9/src/firmwareUpdateTool_v21.05/src/main.c:440-447 | the search returns the argument of the first entry whose string is arg |
| CmdLine.GetArgAssociation | recipes-gnss/ublox/ublox-f9/src/firmwareUpdateTool_v21.05/src/main.c:437-449 | UNKNOWN_ARG exactly when no entry's string is arg; otherwise the argument of the first matching entry |
| CmdLine.ToUInt | recipes-gnss/ublox/ublox-f9/src/firmwareUpdateTool_v21.05/src/main.c:222 | a long stored into an unsigned int is reduced mod 2^32 and kept when already in range |
| CmdLine.BaudValuesOne | recipes-gnss/ublox/ublox-f9/src/firmwareUpdateTool_v21.05/src/main.c:238-242 | "-b a" sets all three rates to a |
| CmdLine.BaudValuesTwo | recipes-gnss/ublox/ublox-f9/src/firmwareUpdateTool_v21.05/src/main.c:225-236 | "-b a:b" sets the safeboot and update rates both to b |
| CmdLine.AfterColonOne | recipes-gnss/ublox/ublox-f9/src/firmwareUpdateTool_v21.05/src/main.c:227-236 | after one colon with no second one, both later rates are the value read |
| CmdLine.BaudValuesThree | recipes-gnss/ublox/ublox-f9/src/firmwareUpdateTool_v21.05/src/main.c:221-232 | "-b a:b:c" sets the rates to a, b and c |
| CmdLine.AfterColonTwo | recipes-gnss/ublox/ublox-f9/src/firmwareUpdateTool_v21.05/src/main.c:227-232 | after the first colon, "b:c" gives the safeboot rate b and the update rate c |
| CmdLine.NextColon | recipes-gnss/ublox/ublox-f9/src/firmwareUpdateTool_v21.05/src/main.c:223 | strchr finds the colon right after a run of digits, and the text after it is what follows |
| CmdLine.ColonFrom | recipes-gnss/ublox/ublox-f9/src/firmwareUpdateTool_v21.05/src/main.c:223 | the colon after a run of digits is found from any position inside the run |
| CmdLine.BaudrateRule | recipes-gnss/ublox/ublox-f9/src/firmwareUpdateTool_v21.05/src/main.c:221-243 | BAUDRATE writes the three rates read from the value and nothing else; the result is TRUE |
| CmdLine.PortRules | recipes-gnss/ublox/ublox-f9/src/firmwareUpdateTool_v21.05/src/main.c:245-267 | PORT stores the port; an I2C, U2C, SPI or SPU prefix clears the training sequence; an I2C or U2C prefix sets all three rates to 100000; nothing else changes |
| CmdLine.PortFields | recipes-gnss/ublox/ublox-f9/src/firmwareUpdateTool_v21.05/src/main.c:245-267 | the PORT case stated with the bus and I2C predicates |
| CmdLine.PortCase | recipes-gnss/ublox/ublox-f9/src/firmwareUpdateTool_v21.05/src/main.c:246-266 | the PORT case as one record update on the port, the training flag and the rates |
| CmdLine.PortPrefixes | recipes-gnss/ublox/ublox-f9/src/firmwareUpdateTool_v21.05/src/main.c:249-260 | strncmp(port, P, 3) == 0 for the four prefixes is a test on the first three characters |
| CmdLine.EraseAllAlways | recipes-gnss/ublox/ublox-f9/src/firmwareUpdateTool_v21.05/src/main.c:297-300 | ERASEALL sets EraseWholeFlash whatever the value |
| CmdLine.TrainingRule | recipes-gnss/ublox/ublox-f9/src/firmwareUpdateTool_v21.05/src/main.c:304-319 | TRAINING clears the flag on a bus port and otherwise sets it to atoi(value) != 0; nothing else changes |
| CmdLine.FileNameRule | recipes-gnss/ublox/ublox-f9/src/firmwareUpdateTool_v21.05/src/main.c:272-278 | FILENAME stores the name and sets the static flag only when no name was given before |
| CmdLine.SetArgResult | recipes-gnss/ublox/ublox-f9/src/firmwareUpdateTool_v21.05/src/main.c:269-271 | SetArgument returns FALSE exactly for HELP, and the static flag is set afterwards exactly when it was before or the option was FILENAME (also line 339 of the same file) |
| CmdLine.HelpRule | recipes-gnss/ublox/ublox-f9/src/firmwareUpdateTool_v21.05/src/main.c:269-271 | HELP changes nothing and returns FALSE |
| CmdLine.FieldRule | recipes-gnss/ublox/ublox-f9/src/firmwareUpdateTool_v21.05/src/main.c:279-337 | the remaining options write their one field and return TRUE |
| CmdLine.SetArgKeepsName | recipes-gnss/ublox/ublox-f9/src/firmwareUpdateTool_v21.05/src/main.c:272-278 | once binaryFileGiven is set, no option changes the image file name |
| CmdLine.FieldKeepsName | recipes-gnss/ublox/ublox-f9/src/firmwareUpdateTool_v21.05/src/main.c:279-337 | the one-field options never touch the image file name |
| CmdLine.SetArgConsistent | recipes-gnss/ublox/ublox-f9/src/firmwareUpdateTool_v21.05/src/main.c:245-319 | every option keeps EraseWholeFlash set and the training sequence off on a bus port |
| CmdLine.FieldConsistent | recipes-gnss/ublox/ublox-f9/src/firmwareUpdateTool_v21.05/src/main.c:297-319 | the same for the one-field options |
| CmdLine.ParseFromOk | recipes-gnss/ublox/ublox-f9/src/firmwareUpdateTool_v21.05/src/main.c:460-506 | from argument i on, the parse succeeds exactly when no later option is unknown, HELP or VERSION and the record names an image or asks for erase-only or FIS-only |
| CmdLine.ParseOk | recipes-gnss/ublox/ublox-f9/src/firmwareUpdateTool_v21.05/src/main.c:452-507 | ParseArguments returns TRUE exactly when no option in argv[1..] is unknown, HELP or VERSION and the final record has EraseOnly, fisOnly or a non-empty image name |
| CmdLine.ParseFromConsistent | recipes-gnss/ublox/ublox-f9/src/firmwareUpdateTool_v21.05/src/main.c:460-498 | the loop keeps EraseWholeFlash set and the training sequence off on a bus port |
| CmdLine.ParseConsistent | recipes-gnss/ublox/ublox-f9/src/firmwareUpdateTool_v21.05/src/main.c:456-498 | whatever the arguments, the parsed record erases the whole flash and sends no training sequence over a bus port |
| CmdLine.DefaultsConsistent | recipes-gnss/ublox/ublox-f9/src/firmwareUpdateTool_v21.05/src/main.c:162-183 | the default record erases the whole flash and its COM port is no bus port |
| CmdLine.FileNameFixed | recipes-gnss/ublox/ublox-f9/src/firmwareUpdateTool_v21.05/src/main.c:218 | once the static flag is set, the rest of the parse never changes the image file name (also lines 272-278 and 488-495 of the same file) |
| CmdLine.FirstStandaloneWins | recipes-gnss/ublox/ublox-f9/src/firmwareUpdateTool_v21.05/src/main.c:491-495 | in a first parse a leading standalone argument is the image file name, whatever follows |
| CmdLine.OptionValue | recipes-gnss/ublox/ublox-f9/src/firmwareUpdateTool_v21.05/src/main.c:462-490 | a non-option after an option is that option's value and clears the pending option |
| CmdLine.NoArguments | recipes-gnss/ublox/ublox-f9/src/firmwareUpdateTool_v21.05/src/main.c:456 | with no arguments the record holds the defaults and the parse fails for want of an image (also lines 499-504 of the same file) |
| CmdLine.Parser.SetArgument | recipes-gnss/ublox/ublox-f9/src/firmwareUpdateTool_v21.05/src/main.c:216-340 | the method leaves the record, the static flag and the result the SetArg specification gives |
| CmdLine.Parser.SetRates | recipes-gnss/ublox/ublox-f9/src/firmwareUpdateTool_v21.05/src/main.c:221-243 | the BAUDRATE case writes the rates the specification reads from the value |
| CmdLine.Parser.SetComPort | recipes-gnss/ublox/ublox-f9/src/firmwareUpdateTool_v21.05/src/main.c:245-267 | the PORT case leaves the record the specification gives |
| CmdLine.Parser.ParseArguments | recipes-gnss/ublox/ublox-f9/src/firmwareUpdateTool_v21.05/src/main.c:452-507 | the loop's result, record and static flag are those of the Parse specification |
| CmdLine.Parser.Run | recipes-gnss/ublox/ublox-f9/src/firmwareUpdateTool_v21.05/src/main.c:510-572 | main returns ERROR_ARGUMENTS when parsing fails, otherwise SUCCESS or ERROR_UPDATE as the update succeeds |
| Platform.SerialPort.Write | recipes-gnss/ublox/ublox-f9/src/firmwareUpdateTool_v21.05/src/platform.c:1754-1787 | a write hands the driver the first n bytes of the message, n being what the driver accepts, records exactly those bytes as sent and changes nothing else |
| Platform.SerialPort.Read | recipes-gnss/ublox/ublox-f9/src/firmwareUpdateTool_v21.05/src/platform.c:1789-1821 | a read returns at most size bytes, and they are exactly the bytes that leave the front of what has arrived |
| Platform.SerialPort.Sleep | recipes-gnss/ublox/ublox-f9/src/firmwareUpdateTool_v21.05/src/platform.c:120-127 | sleeping advances the clock by ms and leaves the port otherwise unchanged |
| Platform.SerialPort.SetBaudrate | recipes-gnss/ublox/ublox-f9/src/firmwareUpdateTool_v21.05/src/platform.c:1835-1882 | the handle takes the new rate exactly when the device setter succeeds, and the result is the setter's |
| Platform.SpiPort.Transfer | recipes-gnss/ublox/ublox-f9/src/firmwareUpdateTool_v21.05/src/platform.c:1090-1092 | a full-duplex transfer sends out and returns as many bytes clocked back, 0xFF once the device has nothing more to say |
| Platform.SpiPort.SpiWrite | recipes-gnss/ublox/ublox-f9/src/firmwareUpdateTool_v21.05/src/platform.c:1082-1099 | SPI_WRITE sends no more than the read-back buffer has room for, appends the bytes clocked back to that buffer, and on an error status returns 0 with buffer and transfer log unchanged |
| Platform.SpiPort.SpiRead | recipes-gnss/ublox/ublox-f9/src/firmwareUpdateTool_v21.05/src/platform.c:1110-1160 | SPI_READ serves buffered bytes first and removes them; with an empty buffer it reads up to 50 dummy bytes and reports no data exactly when the transfer failed or every byte read was 0xFF |
| Platform.SpiPort.SerWriteSpi | recipes-gnss/ublox/ublox-f9/src/firmwareUpdateTool_v21.05/src/platform.c:1542-1752 | an UPD-FLWRI message is sent as the sub-writes of its data the splitting rule determines, and reported fully written; any other message goes to SPI_WRITE unchanged |
| Platform.SplitFlashWrite | recipes-gnss/ublox/ublox-f9/src/firmwareUpdateTool_v21.05/src/platform.c:1569-1686 | the scan over the data returns sub-writes satisfying the splitting rule: every run of more than 8 bytes of 0xFF between data bytes separates two sub-writes, and no sub-write ends in 0xFF or starts in 0xFF, except a first one at offset 0 after at most 8 bytes of 0xFF |
| Platform.SpiPort.SpiWriteAll | recipes-gnss/ublox/ublox-f9/src/firmwareUpdateTool_v21.05/src/platform.c:1605-1612 | each frame goes to SPI_WRITE in order, and every transfer is a prefix of its frame (also lines 1663-1670 and 1705-1712 of the same file) |
| Platform.FlashWriteFrames | recipes-gnss/ublox/ublox-f9/src/firmwareUpdateTool_v21.05/src/platform.c:1590-1605 | each sub-write becomes one UPD-FLWRI frame at the target address plus its offset; with no sub-write a single one-byte frame of 0xFF at the target address is sent (also lines 1648-1663 and 1690-1705 of the same file) |
| Platform.SpansOrdered | recipes-gnss/ublox/ublox-f9/src/firmwareUpdateTool_v21.05/src/platform.c:1584-1631 | sub-writes come in address order, each starting more than 8 bytes after the end of the one before, so no flash byte is written twice |
| Platform.EveryDataByteSent | recipes-gnss/ublox/ublox-f9/src/firmwareUpdateTool_v21.05/src/platform.c:1569-1686 | every data byte other than 0xFF lies in exactly one sub-write |
| Platform.NoSpansIffIdle | recipes-gnss/ublox/ublox-f9/src/firmwareUpdateTool_v21.05/src/platform.c:1644-1728 | no sub-write is produced, and the single 0xFF byte is sent instead, exactly when the data is all 0xFF |
| Platform.SegmentedUnique | recipes-gnss/ublox/ublox-f9/src/firmwareUpdateTool_v21.05/src/platform.c:1569-1686 | the splitting rule admits only one list of sub-writes, so the scan's result is determined by the data |
| Platform.ExtendSpan | recipes-gnss/ublox/ublox-f9/src/firmwareUpdateTool_v21.05/src/platform.c:1575-1636 | a run of at most 8 bytes of 0xFF followed by a data byte keeps the pending sub-write open and extends it over both |
| Platform.CloseSpan | recipes-gnss/ublox/ublox-f9/src/firmwareUpdateTool_v21.05/src/platform.c:1584-1631 | a run of more than 8 bytes of 0xFF followed by a data byte closes the pending sub-write before the run and opens a new one at the data byte |
| Platform.FinishSpans | recipes-gnss/ublox/ublox-f9/src/firmwareUpdateTool_v21.05/src/platform.c:1644-1686 | at the end of the data the pending sub-write is closed before the trailing 0xFF run |
| Receiver.Session.ClearBuffer | recipes-gnss/ublox/ublox-f9/src/firmwareUpdateTool_v21.05/src/receiver.c:58-63 | both cursors return to the start of the buffer, leaving it empty |
| Receiver.Session.TakeFrame | recipes-gnss/ublox/ublox-f9/src/firmwareUpdateTool_v21.05/src/receiver.c:247-265 | when the scan finds a frame it is copied out whole and every byte up to its end is removed, the rest kept in order at the front: the old contents are the skipped bytes, the frame and the new contents, and no valid frame starts within the skipped bytes; when it finds none the buffer is untouched |
| Receiver.Session.ReceivePass | recipes-gnss/ublox/ublox-f9/src/firmwareUpdateTool_v21.05/src/receiver.c:239-265 | a pass reads at most the free space; a frame it returns is the first valid frame in the stream, the stream before the pass being the bytes skipped, that frame and the stream after it; without a frame the stream is unchanged |
| Receiver.Session.Pause | recipes-gnss/ublox/ublox-f9/src/firmwareUpdateTool_v21.05/src/receiver.c:274-277 | the 1 ms sleep after a pass without a frame leaves the stream unchanged |
| Receiver.Session.ReceiveMessage | recipes-gnss/ublox/ublox-f9/src/firmwareUpdateTool_v21.05/src/receiver.c:232-282 | the stream consumed splits into cuts, each some skipped bytes with no valid frame starting in them followed by the first valid frame; every frame cut before the returned one (all of them when NULL is returned) fails the class and id filters (-1 matching any), and a returned frame passes them; NULL only once the deadline has passed, and every call either consumes bytes or lets time pass |
| Receiver.TakenMore | recipes-gnss/ublox/ublox-f9/src/firmwareUpdateTool_v21.05/src/receiver.c:254-265 | a frame taken right after the messages taken so far extends the record of messages taken off the stream in order |
| Receiver.Session.SendMessage | recipes-gnss/ublox/ublox-f9/src/firmwareUpdateTool_v21.05/src/receiver.c:142-168 | the result is TRUE exactly when the driver accepted the whole created frame, and only that frame's accepted prefix is sent |
| Receiver.Session.PollRound | recipes-gnss/ublox/ublox-f9/src/firmwareUpdateTool_v21.05/src/receiver.c:76-93 | one attempt sends the request once and returns only a valid frame of the requested class and id, taken off the stream: the stream before it ends with that frame followed by the stream left |
| Receiver.Session.PollMessage | recipes-gnss/ublox/ublox-f9/src/firmwareUpdateTool_v21.05/src/receiver.c:170-191 | at least one and at most RETRY_COUNT (3) requests are sent, every one a prefix of the request frame; NULL only after exactly 3 attempts; a returned frame has the requested class and id and was taken off the stream, which ends with it followed by what is left |
| Receiver.Session.AwaitAck | recipes-gnss/ublox/ublox-f9/src/firmwareUpdateTool_v21.05/src/receiver.c:210-226 | ACK-class messages naming other commands are skipped without resending; the result is 1 for an ACK-ACK and 0 for an ACK-NAK naming the sent class and id, that reply being taken off the stream right before what is left, or -1 when the round's deadline passes |
| Receiver.Session.AckRound | recipes-gnss/ublox/ublox-f9/src/firmwareUpdateTool_v21.05/src/receiver.c:204-227 | one round sends the command once and, if the driver took all of it, reports the acknowledgement naming it, the stream before the round ending with that acknowledgement and what is left |
| Receiver.Session.AckMessage | recipes-gnss/ublox/ublox-f9/src/firmwareUpdateTool_v21.05/src/receiver.c:193-230 | 1 or 0 come from an ACK-ACK or ACK-NAK whose payload names the command and which was taken off the stream right before what is left; -1 only after exactly RETRY_COUNT (3) sends without one |
| Receiver.Session.SetBaud | recipes-gnss/ublox/ublox-f9/src/firmwareUpdateTool_v21.05/src/receiver.c:344-359 | the buffer is cleared first; the result is TRUE and the rate changes exactly when the driver accepts it |
| Receiver.Session.SendTrainingSequence | recipes-gnss/ublox/ublox-f9/src/firmwareUpdateTool_v21.05/src/receiver.c:130-140 | the two-byte 0x55 0x55 sequence is sent, the result says whether all of it was taken, and 10 ms pass |
| Receiver.Session.PollVersion | recipes-gnss/ublox/ublox-f9/src/firmwareUpdateTool_v21.05/src/receiver.c:310 | an autobaud poll returns only a MON-VER frame, taken off the stream right before what is left; the stream only loses a prefix |
| Receiver.Session.SwitchRate | recipes-gnss/ublox/ublox-f9/src/firmwareUpdateTool_v21.05/src/receiver.c:323-332 | the next rate is set when the driver accepts it, whatever the outcome, and the training sequence follows when asked for; the stream only loses a prefix |
| Receiver.Session.DoAutobaud | recipes-gnss/ublox/ublox-f9/src/firmwareUpdateTool_v21.05/src/receiver.c:304-342 | a returned message is MON-VER and was taken off the stream right before what is left; rates are tried in the listed order, and NULL comes only after every rate was tried, with seven polls at the start rate and at each listed rate |
| Receiver.FrameCut | recipes-gnss/ublox/ublox-f9/src/firmwareUpdateTool_v21.05/src/receiver.c:254-259 | the bytes copied out from a position where the scan found a frame form a whole valid frame |
| Receiver.AfterCut | recipes-gnss/ublox/ublox-f9/src/firmwareUpdateTool_v21.05/src/receiver.c:258-265 | what remains after cutting a frame is the rest of the stream, and no oversized header is then left in it |
| UpdateCore.WriteSizeIsMin | recipes-gnss/ublox/ublox-f9/src/firmwareUpdateTool_v21.05/src/updateCore.c:62-68 | a write carries min(512, ImageSize - p * 512) bytes, never 0 for a packet inside the image |
| UpdateCore.WritePayloadLayout | recipes-gnss/ublox/ublox-f9/src/firmwareUpdateTool_v21.05/src/updateCore.c:57-88 | the write payload is the target address FwBase + p * 512 as LE32, the size n as LE32, then the n image bytes of packet p |
| UpdateCore.WriteFrameLayout | recipes-gnss/ublox/ublox-f9/src/firmwareUpdateTool_v21.05/src/updateCore.c:84 | a write goes out as a valid UPD-FLWRI frame of n + 16 bytes carrying that payload |
| UpdateCore.FirstReady | recipes-gnss/ublox/ublox-f9/src/firmwareUpdateTool_v21.05/src/updateCore.c:400-433 | the lowest packet at or after p in ACK_ERASE_ACK, or the packet count when there is none |
| UpdateCore.FirstTimedOut | recipes-gnss/ublox/ublox-f9/src/firmwareUpdateTool_v21.05/src/updateCore.c:436-474 | the lowest packet at or after p in ACK_WRITE_SENT whose deadline has passed, or the packet count when there is none |
| UpdateCore.InitialCore | recipes-gnss/ublox/ublox-f9/src/firmwareUpdateTool_v21.05/src/updateCore.c:480-541 | updInit allocates one state per sector and one per packet |
| UpdateCore.InitialState | recipes-gnss/ublox/ublox-f9/src/firmwareUpdateTool_v21.05/src/updateCore.c:498-541 | every sector starts ACK_INIT with deadline and retries 0; every packet starts ACK_ERASE_ACK when there are no sectors and ACK_INIT otherwise; counters and cursors start at 0 |
| UpdateCore.EraseAckMarks | recipes-gnss/ublox/ublox-f9/src/firmwareUpdateTool_v21.05/src/updateCore.c:209-227 | a successful erase ack for a sector not yet erased marks it ACK_ERASE_ACK, marks the packets from PacketNr(S) to PacketNr(S+1) below the packet count ACK_ERASE_ACK whatever their state, and decrements PendingErases once, nothing else changing |
| UpdateCore.EraseAckRepeat | recipes-gnss/ublox/ublox-f9/src/firmwareUpdateTool_v21.05/src/updateCore.c:211 | a repeat of a successful erase ack changes nothing |
| UpdateCore.EraseNakResets | recipes-gnss/ublox/ublox-f9/src/firmwareUpdateTool_v21.05/src/updateCore.c:230-236 | an erase ack without success resets the sector to ACK_INIT and counts one retry more, leaving PendingErases and the deadline untouched |
| UpdateCore.WriteAckMarks | recipes-gnss/ublox/ublox-f9/src/firmwareUpdateTool_v21.05/src/updateCore.c:247-268 | a successful write ack sets a packet in ACK_WRITE_SENT or ACK_WRITE_ACK to ACK_WRITE_ACK and decrements PendingWrites unless it is 0; a packet in any other state is left as it was |
| UpdateCore.DuplicateWriteAck | recipes-gnss/ublox/ublox-f9/src/firmwareUpdateTool_v21.05/src/updateCore.c:254-261 | a duplicate write ack decrements PendingWrites a second time |
| UpdateCore.ChipEraseAck | recipes-gnss/ublox/ublox-f9/src/firmwareUpdateTool_v21.05/src/updateCore.c:284-298 | a chip-erase ack matters only while a chip erase runs: byte 1 ends it, anything else fails the update |
| UpdateCore.WriteNakIsFatal | recipes-gnss/ublox/ublox-f9/src/firmwareUpdateTool_v21.05/src/updateCore.c:270-277 | a write ack without success stops message processing at once with FALSE, whatever follows |
| UpdateCore.HandleAllStops | recipes-gnss/ublox/ublox-f9/src/firmwareUpdateTool_v21.05/src/updateCore.c:194-300 | once a message fails the processing, no later message is looked at |
| UpdateCore.HandleAllReleases | recipes-gnss/ublox/ublox-f9/src/firmwareUpdateTool_v21.05/src/updateCore.c:191-301 | processing acknowledgements never adds a pending write |
| UpdateCore.PacketNrIsSum | recipes-gnss/ublox/ublox-f9/src/firmwareUpdateTool_v21.05/src/flash.c:216-253 | on sectors that are whole packets both ways of counting packets before a sector agree |
| UpdateCore.FirstPacketScaled | recipes-gnss/ublox/ublox-f9/src/firmwareUpdateTool_v21.05/src/updateCore.c:214-215 | the first packet of sector k starts exactly where sector k starts |
| UpdateCore.FanOutIsSector | recipes-gnss/ublox/ublox-f9/src/firmwareUpdateTool_v21.05/src/updateCore.c:206-221 | packet i lies between PacketNr(S) and PacketNr(S+1) exactly when its address maps to sector S |
| UpdateCore.EraseAckFansOut | recipes-gnss/ublox/ublox-f9/src/firmwareUpdateTool_v21.05/src/updateCore.c:206-221 | after a successful erase ack, every packet whose address lies in the acked sector is ACK_ERASE_ACK and every other packet is unchanged |
| UpdateCore.EraseStepSends | recipes-gnss/ublox/ublox-f9/src/firmwareUpdateTool_v21.05/src/updateCore.c:320-370 | a sector is erased only when it is not ACK_ERASE_ACK, its deadline has passed and fewer than 2 erases are pending; on sending it becomes ACK_ERASE_SENT with deadline now + 12000, its first packet ACK_ERASE_SENT, and one slot is taken |
| UpdateCore.EraseTrySends | recipes-gnss/ublox/ublox-f9/src/firmwareUpdateTool_v21.05/src/updateCore.c:344-370 | the send test: a deadline that has passed and fewer than 2 pending erases, and then the erase frame for the sector's first packet goes out |
| UpdateCore.EraseStepTimeout | recipes-gnss/ublox/ublox-f9/src/firmwareUpdateTool_v21.05/src/updateCore.c:332-342 | a timed-out erase frees one slot and counts one retry; more than 4 retries fail the run with nothing sent |
| UpdateCore.EraseFromKeepsWrites | recipes-gnss/ublox/ublox-f9/src/firmwareUpdateTool_v21.05/src/updateCore.c:311-378 | updEraseSector changes no packet except to ACK_ERASE_SENT and leaves the write counter, the write cursor and the chip-erase flag alone |
| UpdateCore.EraseFromNext | recipes-gnss/ublox/ublox-f9/src/firmwareUpdateTool_v21.05/src/updateCore.c:317-376 | a pass of the erase loop that stops ends the scan with its own result, and one that does not hands on to the next sector |
| UpdateCore.FreshFromNext | recipes-gnss/ublox/ublox-f9/src/firmwareUpdateTool_v21.05/src/updateCore.c:400-433 | a pass of the first write loop that stops ends the scan with its own result, and one that does not hands on to the next packet |
| UpdateCore.FreshFromSends | recipes-gnss/ublox/ublox-f9/src/firmwareUpdateTool_v21.05/src/updateCore.c:395-433 | the first write loop sends the lowest ACK_ERASE_ACK packet at or after the write cursor if PendingWrites is below the maximum, marking it ACK_WRITE_SENT and, when the send succeeds, counting it pending with a new deadline; otherwise nothing is sent and no packet changes |
| UpdateCore.FreshStepSent | recipes-gnss/ublox/ublox-f9/src/firmwareUpdateTool_v21.05/src/updateCore.c:403-431 | a pass at an ACK_ERASE_ACK packet sends its write and stops; any other pass sends nothing and moves at most the write cursor |
| UpdateCore.FreshStepOutcome | recipes-gnss/ublox/ublox-f9/src/firmwareUpdateTool_v21.05/src/updateCore.c:403-431 | one pass of the first write loop sends exactly when the packet is ACK_ERASE_ACK, and otherwise moves at most the write cursor |
| UpdateCore.RetryFromFirst | recipes-gnss/ublox/ublox-f9/src/firmwareUpdateTool_v21.05/src/updateCore.c:435-475 | the second write loop acts on the lowest timed-out packet only, or leaves everything as it was |
| UpdateCore.RetryRound | recipes-gnss/ublox/ublox-f9/src/firmwareUpdateTool_v21.05/src/updateCore.c:435-475 | the second write loop resends the lowest timed-out write with its retry count raised, fails beyond WRITE_RETRIES with nothing sent, or changes nothing when no write has timed out |
| UpdateCore.RetryStepResends | recipes-gnss/ublox/ublox-f9/src/firmwareUpdateTool_v21.05/src/updateCore.c:440-473 | a timed-out write releases its slot and counts a retry; more than 4 retries fail the run, otherwise the write goes out again with a new deadline |
| UpdateCore.WriteIsNoErase | recipes-gnss/ublox/ublox-f9/src/firmwareUpdateTool_v21.05/src/updateCore.c:84 | a write frame is never an erase |
| UpdateCore.WriteRoundSendsOne | recipes-gnss/ublox/ublox-f9/src/firmwareUpdateTool_v21.05/src/updateCore.c:389-478 | updWritePacket sends at most one frame and no erase, keeps PendingWrites within the maximum, starts writing only erased or already-sent packets, and leaves the sectors alone |
| UpdateCore.WriteRoundChoice | recipes-gnss/ublox/ublox-f9/src/firmwareUpdateTool_v21.05/src/updateCore.c:395-475 | new writes come first; only when none is possible is the lowest timed-out write resent, or the run failed after too many retries; with neither nothing happens |
| UpdateEngine.Engine.constructor | recipes-gnss/ublox/ublox-f9/src/firmwareUpdateTool_v21.05/src/updateCore.c:480-561 | updInit leaves exactly the initial state: every sector ACK_INIT, every packet ACK_ERASE_ACK without sectors and ACK_INIT otherwise, counters and cursors 0 |
| UpdateEngine.Engine.EraseOne | recipes-gnss/ublox/ublox-f9/src/firmwareUpdateTool_v21.05/src/updateCore.c:319-375 | one pass of the erase loop leaves exactly the state and sent frames of the erase step at that sector |
| UpdateEngine.Engine.EraseTry | recipes-gnss/ublox/ublox-f9/src/firmwareUpdateTool_v21.05/src/updateCore.c:329-371 | the pass for a sector not yet erased: timeout handling, then the erase when allowed |
| UpdateEngine.Engine.EraseSend | recipes-gnss/ublox/ublox-f9/src/firmwareUpdateTool_v21.05/src/updateCore.c:347-369 | the erase command is sent and the sector and its first packet become ACK_ERASE_SENT with the erase deadline, exactly as the erase step says |
| UpdateEngine.Engine.EraseSector | recipes-gnss/ublox/ublox-f9/src/firmwareUpdateTool_v21.05/src/updateCore.c:311-378 | updEraseSector leaves exactly the state, sent frames and result of the erase scan from erasedUntil on |
| UpdateEngine.Engine.ErasePass | recipes-gnss/ublox/ublox-f9/src/firmwareUpdateTool_v21.05/src/updateCore.c:319-376 | one pass of the erase loop either ends the scan with the scan's own result or leaves a state from which the rest of the scan gives the same result |
| UpdateEngine.Engine.SendWrite | recipes-gnss/ublox/ublox-f9/src/firmwareUpdateTool_v21.05/src/updateCore.c:57-88 | updSendWrite sends the UPD-FLWRI frame for the packet and is TRUE exactly when the driver took all of it |
| UpdateEngine.Engine.FreshOne | recipes-gnss/ublox/ublox-f9/src/firmwareUpdateTool_v21.05/src/updateCore.c:403-432 | one pass of the first write loop leaves exactly the state of the write step at that packet |
| UpdateEngine.Engine.WriteSend | recipes-gnss/ublox/ublox-f9/src/firmwareUpdateTool_v21.05/src/updateCore.c:414-429 | the write command of a pass and its bookkeeping |
| UpdateEngine.Engine.RetryOne | recipes-gnss/ublox/ublox-f9/src/firmwareUpdateTool_v21.05/src/updateCore.c:438-474 | one pass of the second write loop leaves exactly the state of the retry step at that packet |
| UpdateEngine.Engine.SendNew | recipes-gnss/ublox/ublox-f9/src/firmwareUpdateTool_v21.05/src/updateCore.c:395-433 | the first write loop computes exactly the new-write scan from writtenUntil on |
| UpdateEngine.Engine.SendTimedOut | recipes-gnss/ublox/ublox-f9/src/firmwareUpdateTool_v21.05/src/updateCore.c:435-475 | the second write loop computes exactly the retry scan from packet 0 |
| UpdateEngine.Engine.WritePacket | recipes-gnss/ublox/ublox-f9/src/firmwareUpdateTool_v21.05/src/updateCore.c:389-478 | updWritePacket leaves exactly the state, sent frames and result of the write round |
| UpdateEngine.Engine.HandleMessage | recipes-gnss/ublox/ublox-f9/src/firmwareUpdateTool_v21.05/src/updateCore.c:202-299 | handling one UPD message leaves exactly the state and status of the message handler |
| UpdateEngine.Engine.HandleEraseAck | recipes-gnss/ublox/ublox-f9/src/firmwareUpdateTool_v21.05/src/updateCore.c:202-237 | the erase-ack branch leaves exactly the state and status of the erase-ack handler, whose meaning EraseAckMarks, EraseAckRepeat and EraseNakResets state |
| UpdateEngine.Engine.HandleWriteAck | recipes-gnss/ublox/ublox-f9/src/firmwareUpdateTool_v21.05/src/updateCore.c:238-283 | the write-ack branch leaves exactly the state and status of the write-ack handler, whose meaning WriteAckMarks, DuplicateWriteAck and WriteNakIsFatal state |
| UpdateEngine.Engine.MarkPackets | recipes-gnss/ublox/ublox-f9/src/firmwareUpdateTool_v21.05/src/updateCore.c:217-221 | the packets from begin to end below the packet count become ACK_ERASE_ACK and no other packet changes |
| UpdateEngine.Engine.ProcessMessages | recipes-gnss/ublox/ublox-f9/src/firmwareUpdateTool_v21.05/src/updateCore.c:191-301 | updProcessMessages handles, in order, the UPD messages it takes from the session, stopping at the first that fails; the messages handled are frames taken off the stream one after another in that order, each followed in the old stream by the next |
| UpdateEngine.Engine.NextMessage | recipes-gnss/ublox/ublox-f9/src/firmwareUpdateTool_v21.05/src/updateCore.c:196 | the next UPD frame, if any, is taken off the stream right after the messages already handled, which shrinks the stream |
| UpdateEngine.Engine.HandleNext | recipes-gnss/ublox/ublox-f9/src/firmwareUpdateTool_v21.05/src/updateCore.c:194-300 | one round of the loop: with no message left it sleeps and is done; otherwise the message taken next is handled, and the messages handled so far, in stream order, give the state and status |
| UpdateEngine.Engine.HandleTaken | recipes-gnss/ublox/ublox-f9/src/firmwareUpdateTool_v21.05/src/updateCore.c:202-299 | handling the message taken after the ones handled so far gives the state and status of handling them all in order |
| UpdateEngine.Engine.EraseComplete | recipes-gnss/ublox/ublox-f9/src/firmwareUpdateTool_v21.05/src/updateCore.c:605-614 | TRUE exactly when every sector is ACK_ERASE_ACK |
| UpdateEngine.Engine.WriteComplete | recipes-gnss/ublox/ublox-f9/src/firmwareUpdateTool_v21.05/src/updateCore.c:632-641 | TRUE exactly when every packet is ACK_WRITE_ACK |
| UpdateEngine.Engine.AwaitChipErase | recipes-gnss/ublox/ublox-f9/src/firmwareUpdateTool_v21.05/src/updateCore.c:645-665 | a chip erase still running needs a UPD-CERASE reply within the chip-erase timeout, taken off the stream right before what is left, and when its payload is not 1 byte long its first payload byte must be 1 |
| UpdateEngine.Engine.Update | recipes-gnss/ublox/ublox-f9/src/firmwareUpdateTool_v21.05/src/updateCore.c:578-667 | updUpdate succeeds only after the last check of each phase found every sector ACK_ERASE_ACK and every packet ACK_WRITE_ACK, the final state being the one that check saw |
| UpdateEngine.Engine.EraseStage | recipes-gnss/ublox/ublox-f9/src/firmwareUpdateTool_v21.05/src/updateCore.c:592-615 | the erase half of a round reports completion only after updEraseSector and updProcessMessages succeeded and every sector is ACK_ERASE_ACK |
| UpdateEngine.Engine.WriteStage | recipes-gnss/ublox/ublox-f9/src/firmwareUpdateTool_v21.05/src/updateCore.c:616-642 | the write half of a round reports completion only after updWritePacket and updProcessMessages succeeded and every packet is ACK_WRITE_ACK |
| Update.StopAt | recipes-gnss/ublox/ublox-f9/src/firmwareUpdateTool_v21.05/src/update.c:121-124 | the string scan stops at the first NUL at or after the start, or at the bound, which is tested only after the byte, so the stop may be at the bound itself |
| Update.StopAtFirstNul | recipes-gnss/ublox/ublox-f9/src/firmwareUpdateTool_v21.05/src/update.c:121-124 | a NUL before the bound with no NUL ahead of it is where the scan stops |
| Update.ScanString | recipes-gnss/ublox/ublox-f9/src/firmwareUpdateTool_v21.05/src/update.c:121-135 | the scan loop stops where the scan specification says |
| Update.GenerationOf | recipes-gnss/ublox/ublox-f9/src/firmwareUpdateTool_v21.05/src/update.c:138-145 | an HW string names a generation among 90, 80, 70, 60, 51 and 50, and anything else 0 |
| Update.HwGeneration | recipes-gnss/ublox/ublox-f9/src/firmwareUpdateTool_v21.05/src/update.c:115-160 | a non-zero generation needs the SW string to end on a NUL within the payload |
| Update.ExtractHwGeneration | recipes-gnss/ublox/ublox-f9/src/firmwareUpdateTool_v21.05/src/update.c:115-160 | extractHwGeneration returns the generation of the HW string at payload offset 30 when both the SW and HW scans stop on a NUL, and 0 otherwise |
| Update.NulScan | recipes-gnss/ublox/ublox-f9/src/firmwareUpdateTool_v21.05/src/update.c:121-135 | in a frame built from payload p, a NUL-terminated run of p is scanned up to its NUL and reads back as the same bytes |
| Update.MonVerGeneration | recipes-gnss/ublox/ublox-f9/src/firmwareUpdateTool_v21.05/src/update.c:115-148 | a MON-VER frame whose SW string and HW string at offset 30 both end on a NUL in the payload yields the generation of that HW string |
| Update.GenerationOfInjective | recipes-gnss/ublox/ublox-f9/src/firmwareUpdateTool_v21.05/src/update.c:138-145 | distinct HW strings name distinct generations |
| Update.RomSize | recipes-gnss/ublox/ublox-f9/src/firmwareUpdateTool_v21.05/src/update.c:405-412 | the ROM size is non-zero exactly for generations 50, 51, 60, 70, 80 and 90, a whole number of KiB up to 672 KiB |
| Update.RomSizeGrows | recipes-gnss/ublox/ublox-f9/src/firmwareUpdateTool_v21.05/src/update.c:405-412 | later generations never have a smaller ROM |
| Update.RomCrcRequest | recipes-gnss/ublox/ublox-f9/src/firmwareUpdateTool_v21.05/src/update.c:448-451 | the ROM request names the last ROM word: base 0 from generation 70 on and 0x200000 before, plus the ROM size less 4, then the size 4 and a 0 |
| Update.RomVersionInjective | recipes-gnss/ublox/ublox-f9/src/firmwareUpdateTool_v21.05/src/update.c:493-516 | each known ROM version is named by exactly one ROM CRC |
| Update.IncompatibleExactly | recipes-gnss/ublox/ublox-f9/src/firmwareUpdateTool_v21.05/src/update.c:531-541 | only generation-91 images on receivers outside 90..99 and other than 100 are rejected |
| Update.NumberPackets | recipes-gnss/ublox/ublox-f9/src/firmwareUpdateTool_v21.05/src/update.c:1088-1089 | the packet count is the file size divided by 512, rounded up |
| Update.ChunkStarts | recipes-gnss/ublox/ublox-f9/src/firmwareUpdateTool_v21.05/src/update.c:236 | every chunk of the transfer starts inside the file |
| Update.PacketCountFits | recipes-gnss/ublox/ublox-f9/src/firmwareUpdateTool_v21.05/src/update.c:1088-1090 | the packet count handed to updInit puts every packet's start inside the image |
| Update.MarkerAboveImage | recipes-gnss/ublox/ublox-f9/src/firmwareUpdateTool_v21.05/src/update.c:1150 | without wrap-around the marker address is the first 4 KiB boundary strictly above the end of the image |
| Update.MarkerWraps | recipes-gnss/ublox/ublox-f9/src/firmwareUpdateTool_v21.05/src/update.c:1150 | an image ending in the last 4 KiB of the address space puts the marker at address 0 in U4 arithmetic |
| Update.VerifyRequest | recipes-gnss/ublox/ublox-f9/src/firmwareUpdateTool_v21.05/src/update.c:168-191 | the verify request is the address, the size and the word checksum pair of the image as four LE32 words, preceded from version 2 on by 1 and the negated RAM flag |
| Update.VerifyReplyOf | recipes-gnss/ublox/ublox-f9/src/firmwareUpdateTool_v21.05/src/update.c:198-205 | a verify reply is accepted exactly when its payload has 5 bytes and the last of them is non-zero |
| Update.VerifyImage | recipes-gnss/ublox/ublox-f9/src/firmwareUpdateTool_v21.05/src/update.c:164-206 | verifyImage polls UPD-CRC with that request, at most three times, and is TRUE exactly when the reply it got, taken off the stream right before what is left, is accepted |
| Update.Chunk | recipes-gnss/ublox/ublox-f9/src/firmwareUpdateTool_v21.05/src/update.c:238-256 | chunk k is 512 bytes: the image bytes from k*512, padded with zeros at the end of the image |
| Update.ChunkFrames | recipes-gnss/ublox/ublox-f9/src/firmwareUpdateTool_v21.05/src/update.c:249-257 | the UPD-IMG frames for chunks 0 to n-1, one per chunk |
| Update.Joined | recipes-gnss/ublox/ublox-f9/src/firmwareUpdateTool_v21.05/src/update.c:251-256 | the chunk data of the first n chunks, laid end to end, is n*512 bytes |
| Update.JoinedLayout | recipes-gnss/ublox/ublox-f9/src/firmwareUpdateTool_v21.05/src/update.c:238-263 | the first n chunks hold the image's first n*512 bytes, followed by zeros past its end |
| Update.ChunksRebuildImage | recipes-gnss/ublox/ublox-f9/src/firmwareUpdateTool_v21.05/src/update.c:233-264 | round trip: the chunks of a complete transfer, laid end to end, start with the whole image and are padded with zeros only |
| Update.AckCount | recipes-gnss/ublox/ublox-f9/src/firmwareUpdateTool_v21.05/src/update.c:274-283 | the number of ACK-ACKs counted |
| Update.SendChunk | recipes-gnss/ublox/ublox-f9/src/firmwareUpdateTool_v21.05/src/update.c:238-263 | one chunk goes out as an UPD-IMG frame numbered k mod 2^16; when the driver refuses it only a prefix was sent |
| Update.SendRound | recipes-gnss/ublox/ublox-f9/src/firmwareUpdateTool_v21.05/src/update.c:236-264 | a new chunk is sent only while fewer than 5 are unacked and the image is not all sent; a refused send ends the transfer |
| Update.AwaitImgAck | recipes-gnss/ublox/ublox-f9/src/firmwareUpdateTool_v21.05/src/update.c:267-290 | the reply read is an ACK-class frame taken off the stream right before what is left; the result is ACK or NAK exactly when that reply names UPD-IMG, ACK exactly for an ACK-ACK, and no reply otherwise, an ACK for another command included |
| Update.AckRound | recipes-gnss/ublox/ublox-f9/src/firmwareUpdateTool_v21.05/src/update.c:266-297 | each ACK-ACK for UPD-IMG counts one chunk and pushes out the deadline; a NAK or a passed deadline stops the transfer; the acks read so far are taken off the stream in order |
| Update.ImageToRam | recipes-gnss/ublox/ublox-f9/src/firmwareUpdateTool_v21.05/src/update.c:221-305 | updateImageToRam sends the chunks in order, each while fewer than 5 were unacked, and succeeds exactly when the ACK-ACKs cover the image; a NAK, a refused send or a passed deadline ends it without success; the acks it counts were taken off the stream in that order |
| Image.MagicGeneration | recipes-gnss/ublox/ublox-f9/src/firmwareUpdateTool_v21.05/src/image.c:62-67 | the header magic names generation 50, 60, 70 or 80, UB51 standing for u-blox 6, and anything else 0 |
| Image.HeaderMagics | recipes-gnss/ublox/ublox-f9/src/firmwareUpdateTool_v21.05/src/image.c:46-49 | the four header magics are the little-endian words spelling UBX5, UB51, UBX7 and UBX8, naming generations 50, 60, 70 and 80 |
| Image.FindFooter | recipes-gnss/ublox/ublox-f9/src/firmwareUpdateTool_v21.05/src/image.c:75-83 | the footer magic is looked for 4 to 7 bytes before the end |
| Image.FindFooterFirst | recipes-gnss/ublox/ublox-f9/src/firmwareUpdateTool_v21.05/src/image.c:75-83 | the search finds the magic at fileSize - 4 - i for the least i below 4 at which it lies, and nothing when it lies at none |
| Image.SearchFooter | recipes-gnss/ublox/ublox-f9/src/firmwareUpdateTool_v21.05/src/image.c:71-83 | the search loop returns what the footer search specifies |
| Image.FooterFields | recipes-gnss/ublox/ublox-f9/src/firmwareUpdateTool_v21.05/src/image.c:97-102 | reading a valid footer fills in as many image sizes as it lists and keeps the other slots |
| Image.ReadFooter | recipes-gnss/ublox/ublox-f9/src/firmwareUpdateTool_v21.05/src/image.c:97-102 | the read loop returns exactly the footer information the footer holds |
| Image.CheckFooter | recipes-gnss/ublox/ublox-f9/src/firmwareUpdateTool_v21.05/src/image.c:92-95 | the footer is valid exactly when its version word is 0, it lists at most 2 images and its CRC-32 with seed 0xF5D4C69 matches |
| Image.CheckPointersAndSum | recipes-gnss/ublox/ublox-f9/src/firmwareUpdateTool_v21.05/src/image.c:123-160 | the pointer and checksum checks give exactly the specified result |
| Image.ValidateImage | recipes-gnss/ublox/ublox-f9/src/firmwareUpdateTool_v21.05/src/image.c:51-161 | ValidateImage returns exactly the specified generation and footer information |
| Image.ShortImageRejected | recipes-gnss/ublox/ublox-f9/src/firmwareUpdateTool_v21.05/src/image.c:57-60 | a file shorter than the 48-byte header gives 0 and leaves the footer information alone |
| Image.ValidateResults | recipes-gnss/ublox/ublox-f9/src/firmwareUpdateTool_v21.05/src/image.c:51-161 | every result is 0, a header generation, or 91 |
| Image.InvalidFooterRejects | recipes-gnss/ublox/ublox-f9/src/firmwareUpdateTool_v21.05/src/image.c:109-113 | a footer that is found but fails its checks gives 0, with only the image count recorded |
| Image.NinetyOneIffFooterOnly | recipes-gnss/ublox/ublox-f9/src/firmwareUpdateTool_v21.05/src/image.c:104-107 | the result is 91 exactly for an image without header magic whose footer is found and valid |
| Image.HeaderImageAccepted | recipes-gnss/ublox/ublox-f9/src/firmwareUpdateTool_v21.05/src/image.c:116-160 | with a header magic the image is accepted exactly when the footer allows it, pBase <= pStart <= pEnd all lie in the 0x00800000 region, and the word checksum over bytes 4 to (pEnd & ~1) - pBase holds; the result is then the magic's generation |
| Image.FooterBody | recipes-gnss/ublox/ublox-f9/src/firmwareUpdateTool_v21.05/src/image.c:91-95 | the footer part the CRC covers is 16 + 4n bytes long for n images |
| Image.Footer | recipes-gnss/ublox/ublox-f9/src/firmwareUpdateTool_v21.05/src/image.c:89-95 | a footer with its CRC word is 20 + 4n bytes long |
| Image.FooterLayout | recipes-gnss/ublox/ublox-f9/src/firmwareUpdateTool_v21.05/src/image.c:75-95 | content, a footer and 0xFF padding put the footer magic 16 + 4n bytes after the content |
| Image.FooterAt | recipes-gnss/ublox/ublox-f9/src/firmwareUpdateTool_v21.05/src/image.c:75-95 | a footer ending the image, with at most 3 bytes of padding after it, is found and passes its checks, listing its n images |
| Image.FooterReadAt | recipes-gnss/ublox/ublox-f9/src/firmwareUpdateTool_v21.05/src/image.c:97-102 | the words of such a footer read back as the image sizes and the configuration size it holds |
| Image.FooterFound | recipes-gnss/ublox/ublox-f9/src/firmwareUpdateTool_v21.05/src/image.c:75-83 | a magic followed by at most three 0xFF bytes is found |
| Image.Pad | recipes-gnss/ublox/ublox-f9/src/firmwareUpdateTool_v21.05/src/image.c:220 | n bytes of 0xFF |
| Image.PadCount | recipes-gnss/ublox/ublox-f9/src/firmwareUpdateTool_v21.05/src/image.c:192 | (4 - (size & 3)) & 3 is less than 4 and makes the size a multiple of 4 |
| Image.PaddedFile | recipes-gnss/ublox/ublox-f9/src/firmwareUpdateTool_v21.05/src/image.c:192-221 | the padded file is a multiple of 4 bytes, starts with the whole content, and adds at most 3 bytes, all 0xFF |
| Image.BufferFile | recipes-gnss/ublox/ublox-f9/src/firmwareUpdateTool_v21.05/src/image.c:192-222 | OpenAndBufferFile hands back a fresh buffer holding the padded file, and its size |
| Image.PaddedFooterLaidOut | recipes-gnss/ublox/ublox-f9/src/firmwareUpdateTool_v21.05/src/image.c:75-83 | after padding, a footer written at the end of the content still ends within 7 bytes of the end of the file, where the search looks for it (also lines 192-221 of the same file) |
| MergeFis.TableEntry | recipes-gnss/ublox/ublox-f9/src/firmwareUpdateTool_v21.05/src/mergefis.c:104-170 | every entry of the 256-word CRC table is its index run through eight rounds of the reflected shift-and-XOR with the polynomial 0xEDB88320, so the table is the byte-wise form of the bit-wise CRC-32 |
| MergeFis.TableEntry0 | recipes-gnss/ublox/ublox-f9/src/firmwareUpdateTool_v21.05/src/mergefis.c:104-120 | the same for entries 0x00 to 0x3F |
| MergeFis.TableEntry1 | recipes-gnss/ublox/ublox-f9/src/firmwareUpdateTool_v21.05/src/mergefis.c:120-137 | the same for entries 0x40 to 0x7F |
| MergeFis.TableEntry2 | recipes-gnss/ublox/ublox-f9/src/firmwareUpdateTool_v21.05/src/mergefis.c:137-154 | the same for entries 0x80 to 0xBF |
| MergeFis.TableEntry3 | recipes-gnss/ublox/ublox-f9/src/firmwareUpdateTool_v21.05/src/mergefis.c:154-170 | the same for entries 0xC0 to 0xFF |
| MergeFis.Unroll | recipes-gnss/ublox/ublox-f9/src/firmwareUpdateTool_v21.05/src/mergefis.c:104-170 | eight rounds are eight applications of one round |
| MergeFis.TableStep | recipes-gnss/ublox/ublox-f9/src/firmwareUpdateTool_v21.05/src/mergefis.c:525 | the table step (register shifted right by 8, XOR the entry at the low byte of register XOR data) equals the bit-wise CRC step |
| MergeFis.TableLookup | recipes-gnss/ublox/ublox-f9/src/firmwareUpdateTool_v21.05/src/mergefis.c:525 | one byte through the table is one step of the bit-wise CRC |
| MergeFis.LibCrcCrc32 | recipes-gnss/ublox/ublox-f9/src/firmwareUpdateTool_v21.05/src/mergefis.c:517-528 | the result of the loop over the data is the CRC-32 of the data from the seed |
| MergeFis.Crc32Empty | recipes-gnss/ublox/ublox-f9/src/firmwareUpdateTool_v21.05/src/mergefis.c:522-527 | over no bytes the seed comes back unchanged |
| MergeFis.Crc32Snoc | recipes-gnss/ublox/ublox-f9/src/firmwareUpdateTool_v21.05/src/mergefis.c:523-526 | one more byte is one more step from the CRC of the bytes before it |
| MergeFis.Crc32Append | recipes-gnss/ublox/ublox-f9/src/firmwareUpdateTool_v21.05/src/mergefis.c:517-528 | the CRC of a concatenation continues from the CRC of its first part, so the byte stream may be split anywhere |
| MergeFis.HexValue | recipes-gnss/ublox/ublox-f9/src/firmwareUpdateTool_v21.05/src/mergefis.c:485 | a hex digit is worth less than 16 |
| MergeFis.HexBytes | recipes-gnss/ublox/ublox-f9/src/firmwareUpdateTool_v21.05/src/mergefis.c:473-488 | a hex string of n characters yields (n + 1) / 2 bytes |
| MergeFis.HexStringToCharArray | recipes-gnss/ublox/ublox-f9/src/firmwareUpdateTool_v21.05/src/mergefis.c:473-488 | the bytes from the target index on are replaced by the pairwise conversion of the string (a lone last digit converted alone, a non-hex pair to 0) and every other byte is kept |
| MergeFis.HexDigit | recipes-gnss/ublox/ublox-f9/src/firmwareUpdateTool_v21.05/src/mergefis.c:485 | the digit rendered for a value below 16 is a hex digit of that value |
| MergeFis.HexEncode | recipes-gnss/ublox/ublox-f9/src/firmwareUpdateTool_v21.05/src/mergefis.c:473-488 | the hex rendering of n bytes has 2n characters |
| MergeFis.HexRoundTrip | recipes-gnss/ublox/ublox-f9/src/firmwareUpdateTool_v21.05/src/mergefis.c:473-488 | converting the hex rendering of a byte string gives the bytes back |
| MergeFis.PaddedString | recipes-gnss/ublox/ublox-f9/src/firmwareUpdateTool_v21.05/src/mergefis.c:965-969 | the string after the odd-length padding keeps its length |
| MergeFis.HexDigitsOf | recipes-gnss/ublox/ublox-f9/src/firmwareUpdateTool_v21.05/src/mergefis.c:960-976 | the digits handed to the pair conversion are of even count |
| MergeFis.BigEndianBound | recipes-gnss/ublox/ublox-f9/src/firmwareUpdateTool_v21.05/src/mergefis.c:981-985 | k bytes read big-endian are worth less than 256^k |
| MergeFis.Pow256Mono | recipes-gnss/ublox/ublox-f9/src/firmwareUpdateTool_v21.05/src/mergefis.c:971-985 | 256^m is at most 256^n for m at most n |
| MergeFis.StringToU4 | recipes-gnss/ublox/ublox-f9/src/firmwareUpdateTool_v21.05/src/mergefis.c:949-998 | the result is the hex value after an "x" or "0x" prefix or the atoi value otherwise (no value for a negative one), and the buffer is left with the '0' written in front of an odd digit count |
| MergeFis.DecimalToU4 | recipes-gnss/ublox/ublox-f9/src/firmwareUpdateTool_v21.05/src/mergefis.c:988-995 | the decimal branch gives the atoi value, and no value when it is negative |
| MergeFis.ConvertHexDigits | recipes-gnss/ublox/ublox-f9/src/firmwareUpdateTool_v21.05/src/mergefis.c:976-986 | an even run of up to eight digits converted through a zeroed buffer reads back as the big-endian value of its bytes |
| MergeFis.ReadBigEndian | recipes-gnss/ublox/ublox-f9/src/firmwareUpdateTool_v21.05/src/mergefis.c:981-985 | the shifting loop gives the big-endian value of the buffer |
| MergeFis.HexShape | recipes-gnss/ublox/ublox-f9/src/firmwareUpdateTool_v21.05/src/mergefis.c:955-976 | the padded string and the digit offset are those the padding and digit functions specify, and the digits fill the buffer exactly |
| MergeFis.BigEndianStep | recipes-gnss/ublox/ublox-f9/src/firmwareUpdateTool_v21.05/src/mergefis.c:983-984 | one more byte shifts the value by eight bits and adds the byte, below 2^32 for up to four bytes |
| MergeFis.U4ValueDecimal | recipes-gnss/ublox/ublox-f9/src/firmwareUpdateTool_v21.05/src/mergefis.c:988-995 | a string without a hex prefix converts to its atoi value, or to no value when that is negative |
| MergeFis.U4ValueHex | recipes-gnss/ublox/ublox-f9/src/firmwareUpdateTool_v21.05/src/mergefis.c:955-987 | a string with a hex prefix converts to the big-endian value of its padded digit pairs |
| MergeFis.HexStringValue | recipes-gnss/ublox/ublox-f9/src/firmwareUpdateTool_v21.05/src/mergefis.c:955-987 | "0x" or "x" followed by up to eight hex digits converts to the number those digits write, an odd count included |
| MergeFis.HexPrefixShape | recipes-gnss/ublox/ublox-f9/src/firmwareUpdateTool_v21.05/src/mergefis.c:955-969 | after a prefix the digits start right behind it, and an odd count is padded with one leading '0' |
| MergeFis.PaddedDigitsValue | recipes-gnss/ublox/ublox-f9/src/firmwareUpdateTool_v21.05/src/mergefis.c:965-969 | padding an odd digit count with '0' keeps the value |
| MergeFis.EvenHexValue | recipes-gnss/ublox/ublox-f9/src/firmwareUpdateTool_v21.05/src/mergefis.c:976-985 | an even hex string converts pair by pair into its value |
| MergeFis.HexBytesDropPair | recipes-gnss/ublox/ublox-f9/src/firmwareUpdateTool_v21.05/src/mergefis.c:473-488 | the last digit pair contributes the last, least significant byte |
| MergeFis.HexNumberDropPair | recipes-gnss/ublox/ublox-f9/src/firmwareUpdateTool_v21.05/src/mergefis.c:485 | the value of a digit string is the value of all but its last pair times 256 plus that pair |
| MergeFis.LeadingZero | recipes-gnss/ublox/ublox-f9/src/firmwareUpdateTool_v21.05/src/mergefis.c:965-969 | a leading '0' digit does not change the value |
| MergeFis.DecimalStringValue | recipes-gnss/ublox/ublox-f9/src/firmwareUpdateTool_v21.05/src/mergefis.c:988-995 | the decimal rendering of a number below 2^31 converts back to it |
| MergeFis.LastChildIn | recipes-gnss/ublox/ublox-f9/src/firmwareUpdateTool_v21.05/src/mergefis.c:296-310 | a child found is one of the children searched |
| MergeFis.LastChild | recipes-gnss/ublox/ublox-f9/src/firmwareUpdateTool_v21.05/src/mergefis.c:296-310 | a child found is one of the element's children |
| MergeFis.AttrValueIsLast | recipes-gnss/ublox/ublox-f9/src/firmwareUpdateTool_v21.05/src/mergefis.c:269-283 | no value exactly when no attribute has the name, and otherwise the value of the last attribute that has it |
| MergeFis.LastChildIsLast | recipes-gnss/ublox/ublox-f9/src/firmwareUpdateTool_v21.05/src/mergefis.c:296-310 | no child exactly when none has the name, and otherwise the last child that has it |
| MergeFis.GetAttrValue | recipes-gnss/ublox/ublox-f9/src/firmwareUpdateTool_v21.05/src/mergefis.c:269-283 | the scan over the attributes returns the value of the last one with the name, or none |
| MergeFis.GetElemValue | recipes-gnss/ublox/ublox-f9/src/firmwareUpdateTool_v21.05/src/mergefis.c:296-310 | the scan over the children returns the text of the last one with the name, or none |
| MergeFis.NeededBounds | recipes-gnss/ublox/ublox-f9/src/firmwareUpdateTool_v21.05/src/mergefis.c:1030-1156 | the table reaches every byte that a present setting writes |
| MergeFis.SupplyBitsSpec | recipes-gnss/ublox/ublox-f9/src/firmwareUpdateTool_v21.05/src/mergefis.c:1030-1034 | the supply setting changes bit 0 only and sets it exactly for 1.8 V |
| MergeFis.CapBitsSpec | recipes-gnss/ublox/ublox-f9/src/firmwareUpdateTool_v21.05/src/mergefis.c:1056-1088 | the capability setting changes only the write-suspend, fast-program, deep-sleep and speed bits, each set or cleared as its flag says and kept when the flag is absent |
| MergeFis.PutWord | recipes-gnss/ublox/ublox-f9/src/firmwareUpdateTool_v21.05/src/mergefis.c:1036-1054 | a present 32-bit setting reads back little-endian at its position and no other byte changes |
| MergeFis.PutLow | recipes-gnss/ublox/ublox-f9/src/firmwareUpdateTool_v21.05/src/mergefis.c:1130-1156 | a present single-byte setting leaves the low byte of the number at its position and no other byte changes |
| MergeFis.PutSupply | recipes-gnss/ublox/ublox-f9/src/firmwareUpdateTool_v21.05/src/mergefis.c:1030-1034 | the supply write keeps the table's length |
| MergeFis.PutCap | recipes-gnss/ublox/ublox-f9/src/firmwareUpdateTool_v21.05/src/mergefis.c:1056-1088 | the capability write keeps the table's length |
| MergeFis.EditedTable | recipes-gnss/ublox/ublox-f9/src/firmwareUpdateTool_v21.05/src/mergefis.c:1005-1157 | the edited table keeps its length |
| MergeFis.ApplyValues | recipes-gnss/ublox/ublox-f9/src/firmwareUpdateTool_v21.05/src/mergefis.c:1030-1156 | applying the settings keeps the table's length |
| MergeFis.PutHead | recipes-gnss/ublox/ublox-f9/src/firmwareUpdateTool_v21.05/src/mergefis.c:1030-1054 | the supply and capability bytes and the sector size and count hold what their present settings say, and every other byte is kept |
| MergeFis.PutNumbers | recipes-gnss/ublox/ublox-f9/src/firmwareUpdateTool_v21.05/src/mergefis.c:1090-1128 | the hsp, cfg, minimum erase-suspend and write-size words hold their present settings, and every other byte is kept |
| MergeFis.PutOpcodes | recipes-gnss/ublox/ublox-f9/src/firmwareUpdateTool_v21.05/src/mergefis.c:1130-1156 | the deep-sleep opcode, wake-up opcode, wake-up timeout and maximum speed bytes hold the low bytes of their present settings, and every other byte is kept |
| MergeFis.ReadU4 | recipes-gnss/ublox/ublox-f9/src/firmwareUpdateTool_v21.05/src/mergefis.c:1036-1044 | the number read is the converted value, or 0 when the conversion fails |
| MergeFis.StoreLE32 | recipes-gnss/ublox/ublox-f9/src/firmwareUpdateTool_v21.05/src/mergefis.c:1040-1043 | the four byte stores put the word little-endian at the position and change nothing else |
| MergeFis.ReadNumber | recipes-gnss/ublox/ublox-f9/src/firmwareUpdateTool_v21.05/src/mergefis.c:1036-1128 | a present number setting is converted, an absent one stays absent |
| MergeFis.PutWordAt | recipes-gnss/ublox/ublox-f9/src/firmwareUpdateTool_v21.05/src/mergefis.c:1036-1128 | the array becomes the table with the 32-bit setting stored |
| MergeFis.PutLowAt | recipes-gnss/ublox/ublox-f9/src/firmwareUpdateTool_v21.05/src/mergefis.c:1130-1156 | the array becomes the table with the single-byte setting stored |
| MergeFis.PutSupplyAt | recipes-gnss/ublox/ublox-f9/src/firmwareUpdateTool_v21.05/src/mergefis.c:1030-1034 | the array becomes the table with the supply bit set as specified |
| MergeFis.ReadCapFlags | recipes-gnss/ublox/ublox-f9/src/firmwareUpdateTool_v21.05/src/mergefis.c:1056-1085 | the four flags are read from the cap element's attributes, none when there is no cap element |
| MergeFis.ReadFlag | recipes-gnss/ublox/ublox-f9/src/firmwareUpdateTool_v21.05/src/mergefis.c:1063-1085 | a present attribute is a flag set exactly when its atoi value is 1 |
| MergeFis.PutCapAt | recipes-gnss/ublox/ublox-f9/src/firmwareUpdateTool_v21.05/src/mergefis.c:1056-1088 | the array becomes the table with the capability byte built from the flags |
| MergeFis.SetCapFlag | recipes-gnss/ublox/ublox-f9/src/firmwareUpdateTool_v21.05/src/mergefis.c:1063-1085 | one flag sets or clears its mask bit, or keeps the byte when absent |
| MergeFis.EditTable2 | recipes-gnss/ublox/ublox-f9/src/firmwareUpdateTool_v21.05/src/mergefis.c:1005-1157 | the table becomes the edited table for the container's settings: every present setting written in the source's order, nothing else changed |
| MergeFis.ReadValues | recipes-gnss/ublox/ublox-f9/src/firmwareUpdateTool_v21.05/src/mergefis.c:1008-1156 | the settings read are the conversions of the fields found |
| MergeFis.WriteValues | recipes-gnss/ublox/ublox-f9/src/firmwareUpdateTool_v21.05/src/mergefis.c:1030-1156 | the writes in the source's order give the table with all settings applied |
| MergeFis.WriteHead | recipes-gnss/ublox/ublox-f9/src/firmwareUpdateTool_v21.05/src/mergefis.c:1030-1054 | the first writes give the table with supply, capability and sector geometry applied |
| MergeFis.WriteNumbers | recipes-gnss/ublox/ublox-f9/src/firmwareUpdateTool_v21.05/src/mergefis.c:1090-1128 | the next writes give the table with the four 32-bit settings applied |
| MergeFis.WriteOpcodes | recipes-gnss/ublox/ublox-f9/src/firmwareUpdateTool_v21.05/src/mergefis.c:1130-1156 | the last writes give the table with the four single-byte settings applied |
| MergeFis.ApplyValuesFrame | recipes-gnss/ublox/ublox-f9/src/firmwareUpdateTool_v21.05/src/mergefis.c:1005-1157 | every byte no present setting writes is left as it was |
| MergeFis.ApplyValuesHeadStores | recipes-gnss/ublox/ublox-f9/src/firmwareUpdateTool_v21.05/src/mergefis.c:1030-1054 | after all writes the supply and capability bytes and the sector size and count hold their settings |
| MergeFis.ApplyValuesTailStores | recipes-gnss/ublox/ublox-f9/src/firmwareUpdateTool_v21.05/src/mergefis.c:1090-1156 | after all writes the 32-bit and single-byte settings hold, later writes not disturbing earlier ones |
| MergeFis.SectorReadBack | recipes-gnss/ublox/ublox-f9/src/firmwareUpdateTool_v21.05/src/mergefis.c:1036-1054 | after the edit the sector getters read the configured size and count on a table of the older layout, the layout kind is kept, and an absent setting reads as before (also lines 1160-1189 of the same file) |
| MergeFis.ValuesReadBack | recipes-gnss/ublox/ublox-f9/src/firmwareUpdateTool_v21.05/src/mergefis.c:1036-1054 | the same for the converted settings (also lines 1160-1189 of the same file) |
| MergeFis.ImageWithCrc | recipes-gnss/ublox/ublox-f9/src/firmwareUpdateTool_v21.05/src/mergefis.c:536-549 | storing the checksum pair keeps the image's length |
| MergeFis.UpdateImageCrc | recipes-gnss/ublox/ublox-f9/src/firmwareUpdateTool_v21.05/src/mergefis.c:536-549 | the image gets the word-checksum pair over bytes 4 to size - 8 stored at size - 8, and the result is whether the pair then verifies at the word position CheckUbxChecksumU4 reads it from |
| MergeFis.StoreImageCrc | recipes-gnss/ublox/ublox-f9/src/firmwareUpdateTool_v21.05/src/mergefis.c:538-547 | the word-checksum pair over bytes 4 to size - 8 is stored little-endian at size - 8 and nothing else changes |
| MergeFis.AlignedImageCrcHolds | recipes-gnss/ublox/ublox-f9/src/firmwareUpdateTool_v21.05/src/mergefis.c:536-549 | on a word-aligned image size the stored pair always checks |
| MergeFis.MergedImage | recipes-gnss/ublox/ublox-f9/src/firmwareUpdateTool_v21.05/src/mergefis.c:1486-1493 | the merged image keeps its length |
| MergeFis.MergeFisMerge | recipes-gnss/ublox/ublox-f9/src/firmwareUpdateTool_v21.05/src/mergefis.c:1486-1493 | the FIS is copied over bytes 0x40 to 0x1000, the checksum pair is updated, and the result is OK exactly when the pair checks |
| MergeFis.MergeAlignedOk | recipes-gnss/ublox/ublox-f9/src/firmwareUpdateTool_v21.05/src/mergefis.c:1486-1493 | merging into a word-aligned image always reports OK |
| MergeFis.MergedImageContents | recipes-gnss/ublox/ublox-f9/src/firmwareUpdateTool_v21.05/src/mergefis.c:1486-1493 | the merged image holds the FIS at 0x40 when the checksum lies past it, and outside the FIS range and the checksum pair holds the image as before |
| MergeFisLoad.FirstAttrIsFirst | recipes-gnss/ublox/ublox-f9/src/firmwareUpdateTool_v21.05/src/mergefis.c:1250-1254 | no value exactly when no attribute from the index on has the name, and otherwise the value of the first one that has it |
| MergeFisLoad.FindDeviceCmd | recipes-gnss/ublox/ublox-f9/src/firmwareUpdateTool_v21.05/src/mergefis.c:1246-1265 | the command-set name is the first "cmd" attribute of the device, or failing that the last "cmd" attribute of its category |
| MergeFisLoad.ReadCodeTexts | recipes-gnss/ublox/ublox-f9/src/firmwareUpdateTool_v21.05/src/mergefis.c:1298-1316 | the length, checksum and code texts are those of the last children with those names |
| MergeFisLoad.LoadedCode | recipes-gnss/ublox/ublox-f9/src/firmwareUpdateTool_v21.05/src/mergefis.c:1324-1345 | the buffer holds exactly the length setting's count of bytes |
| MergeFisLoad.JedecBytes | recipes-gnss/ublox/ublox-f9/src/firmwareUpdateTool_v21.05/src/mergefis.c:1372-1374 | the JEDEC id gives three bytes |
| MergeFisLoad.Stamped | recipes-gnss/ublox/ublox-f9/src/firmwareUpdateTool_v21.05/src/mergefis.c:1371-1386 | stamping keeps the buffer's length |
| MergeFisLoad.SealedWith | recipes-gnss/ublox/ublox-f9/src/firmwareUpdateTool_v21.05/src/mergefis.c:1389-1393 | storing a CRC keeps the buffer's length |
| MergeFisLoad.Sealed | recipes-gnss/ublox/ublox-f9/src/firmwareUpdateTool_v21.05/src/mergefis.c:1388-1393 | sealing keeps the buffer's length |
| MergeFisLoad.EditedBy | recipes-gnss/ublox/ublox-f9/src/firmwareUpdateTool_v21.05/src/mergefis.c:1362-1366 | the category's edit keeps the buffer's length |
| MergeFisLoad.FinishedFis | recipes-gnss/ublox/ublox-f9/src/firmwareUpdateTool_v21.05/src/mergefis.c:1362-1396 | the finished FIS is as long as the loaded buffer |
| MergeFisLoad.LoadCode | recipes-gnss/ublox/ublox-f9/src/firmwareUpdateTool_v21.05/src/mergefis.c:1324-1345 | a fresh buffer of the given length filled with 0xFF, the code's bytes from byte 0 on and the stored CRC's bytes from length - 4 on |
| MergeFisLoad.CheckStoredCrc | recipes-gnss/ublox/ublox-f9/src/firmwareUpdateTool_v21.05/src/mergefis.c:1347-1353 | the result is whether the CRC-32 of all but the last four bytes equals the little-endian word in those bytes |
| MergeFisLoad.StampFis | recipes-gnss/ublox/ublox-f9/src/firmwareUpdateTool_v21.05/src/mergefis.c:1371-1386 | the buffer gets the JEDEC bytes at 4 to 6 and, with a revision string, the revision number at its position |
| MergeFisLoad.SealFis | recipes-gnss/ublox/ublox-f9/src/firmwareUpdateTool_v21.05/src/mergefis.c:1388-1393 | the buffer gets the CRC-32 of all but its last four bytes stored little-endian in them |
| MergeFisLoad.MergeFisLoad2 | recipes-gnss/ublox/ublox-f9/src/firmwareUpdateTool_v21.05/src/mergefis.c:1237-1404 | the result code and the FIS are those the load specification gives for the found device, its category, the command sets, the JEDEC id and the revision |
| MergeFisLoad.SealedStoresCrc | recipes-gnss/ublox/ublox-f9/src/firmwareUpdateTool_v21.05/src/mergefis.c:1388-1393 | a sealed buffer carries the CRC of everything before its last four bytes, which are left as they were |
| MergeFisLoad.SealedWithKeeps | recipes-gnss/ublox/ublox-f9/src/firmwareUpdateTool_v21.05/src/mergefis.c:1389-1393 | storing the CRC changes only the last four bytes, which then read back as the CRC |
| MergeFisLoad.JedecBytesValue | recipes-gnss/ublox/ublox-f9/src/firmwareUpdateTool_v21.05/src/mergefis.c:1372-1374 | the three bytes spell out the low 24 bits of the JEDEC id, manufacturer byte first |
| MergeFisLoad.RevisionOfRendering | recipes-gnss/ublox/ublox-f9/src/firmwareUpdateTool_v21.05/src/mergefis.c:1379-1380 | the revision scanned from "$Rev: n $" is n for any 32-bit n |
| MergeFisLoad.RevisionDefault | recipes-gnss/ublox/ublox-f9/src/firmwareUpdateTool_v21.05/src/mergefis.c:1379-1380 | a string not starting "$Rev:" leaves the preset 0xFFFFFFFF |
| MergeFisLoad.Load2OkSealed | recipes-gnss/ublox/ublox-f9/src/firmwareUpdateTool_v21.05/src/mergefis.c:1388-1403 | on MERGEFIS_OK the FIS's last four bytes hold the CRC-32 of the rest |
| MergeFisLoad.Load2OkJedec | recipes-gnss/ublox/ublox-f9/src/firmwareUpdateTool_v21.05/src/mergefis.c:1371-1403 | on MERGEFIS_OK, with the CRC past them, bytes 4 to 6 hold the JEDEC id |
| MergeFisLoad.Load2OkRevision | recipes-gnss/ublox/ublox-f9/src/firmwareUpdateTool_v21.05/src/mergefis.c:1376-1403 | on MERGEFIS_OK with a revision string, with the CRC past it, the revision field holds the scanned number |
| MergeFisLoad.Load2Errors | recipes-gnss/ublox/ublox-f9/src/firmwareUpdateTool_v21.05/src/mergefis.c:1242-1323 | JEDEC_NOT_SUPPORTED exactly when no device is found; INCORRECT_XML exactly when there is no command-set name, no such set, or no length or code in it; and no FIS on any error |
| MergeFisLoad.Load2Corrupted | recipes-gnss/ublox/ublox-f9/src/firmwareUpdateTool_v21.05/src/mergefis.c:1347-1360 | CODE_CORRUPTED exactly when the command set is complete but its stored CRC does not match the converted code |
| MergeFisLoad.Load2OkVersion | recipes-gnss/ublox/ublox-f9/src/firmwareUpdateTool_v21.05/src/mergefis.c:1371-1374 | on MERGEFIS_OK the FIS has the newer table layout exactly when the JEDEC manufacturer byte is 3 and the device type byte 0 (also lines 1160-1189 of the same file) |
| MergeFisLoad.JedecVersion | recipes-gnss/ublox/ublox-f9/src/firmwareUpdateTool_v21.05/src/mergefis.c:1372-1374 | the layout of a FIS stamped with a JEDEC id is decided by its manufacturer and device type bytes (also lines 1160-1189 of the same file) |
| MergeFisLoad.StampedJedec | recipes-gnss/ublox/ublox-f9/src/firmwareUpdateTool_v21.05/src/mergefis.c:1371-1393 | stamping then storing a CRC leaves the JEDEC bytes in place when the CRC lies past them |
| MergeFisLoad.StampedRevision | recipes-gnss/ublox/ublox-f9/src/firmwareUpdateTool_v21.05/src/mergefis.c:1376-1393 | stamping then storing a CRC leaves the revision number in place when the CRC lies past it |
| Yxml.PrevNul | recipes-gnss/ublox/ublox-f9/src/firmwareUpdateTool_v21.05/src/yxml.c:216-220 | the offset found is the last NUL before the given one, with no NUL between |
| Yxml.PopStacked | recipes-gnss/ublox/ublox-f9/src/firmwareUpdateTool_v21.05/src/yxml.c:216-220 | popping the top frame leaves a well-formed stack one frame shallower, with bytes still before the NUL when frames remain (also lines 230-241 of the same file) |
| Yxml.PushFrame | recipes-gnss/ublox/ublox-f9/src/firmwareUpdateTool_v21.05/src/yxml.c:194-203 | ESTACK exactly when the start character and its NUL would not fit, and then nothing changes |
| Yxml.PushChar | recipes-gnss/ublox/ublox-f9/src/firmwareUpdateTool_v21.05/src/yxml.c:206-213 | ESTACK exactly when the character and the NUL after it would not fit, and then nothing changes |
| Yxml.CloseElem | recipes-gnss/ublox/ublox-f9/src/firmwareUpdateTool_v21.05/src/yxml.c:230-241 | closing an element returns ELEMEND |
| Yxml.HexRun | recipes-gnss/ublox/ublox-f9/src/firmwareUpdateTool_v21.05/src/yxml.c:294-295 | the hex loop stops at the first non-hex byte at or after its start |
| Yxml.DecRun | recipes-gnss/ublox/ublox-f9/src/firmwareUpdateTool_v21.05/src/yxml.c:297-298 | the decimal loop stops at the first non-digit byte at or after its start |
| Yxml.Utf8 | recipes-gnss/ublox/ublox-f9/src/firmwareUpdateTool_v21.05/src/yxml.c:127-144 | a code point is encoded in one to four bytes |
| Yxml.SetUtf8 | recipes-gnss/ublox/ublox-f9/src/firmwareUpdateTool_v21.05/src/yxml.c:127-144 | writing the encoding into the data buffer keeps its eight bytes (also line 314 of the same file) |
| YxmlStep.StackAgree | recipes-gnss/ublox/ublox-f9/src/firmwareUpdateTool_v21.05/src/yxml.c:216-220 | two stacks that agree up to the top NUL have the same frames below it |
| YxmlStep.PushStacked | recipes-gnss/ublox/ublox-f9/src/firmwareUpdateTool_v21.05/src/yxml.c:194-203 | pushing a frame gives a well-formed stack one frame deeper, the new frame starting just above the old top NUL, the bytes below kept |
| YxmlStep.PushCharStacked | recipes-gnss/ublox/ublox-f9/src/firmwareUpdateTool_v21.05/src/yxml.c:206-213 | appending a name byte lengthens the top frame, keeps its depth and leaves the frames below as they were |
| YxmlStep.PushFacts | recipes-gnss/ublox/ublox-f9/src/firmwareUpdateTool_v21.05/src/yxml.c:194-203 | what the push leaves: one frame more starting above the old top NUL, the start of the frame below unchanged (also lines 223, 259 and 265 of the same file) |
| YxmlStep.GrowStack | recipes-gnss/ublox/ublox-f9/src/firmwareUpdateTool_v21.05/src/yxml.c:206-213 | one more name byte keeps the depth and the start of the top frame and of the element below it (also lines 224, 260 and 266 of the same file) |
| YxmlStep.CommentKeeps | recipes-gnss/ublox/ublox-f9/src/firmwareUpdateTool_v21.05/src/yxml.c:446-481 | in the comment states, on a byte other than NUL the parser invariant (NUL-separated frame stack, element, attribute and PI pointers at their frames, reference buffer ready) holds again after a token, and the stack is untouched after an error |
| YxmlStep.DtKeeps | recipes-gnss/ublox/ublox-f9/src/firmwareUpdateTool_v21.05/src/yxml.c:482-543 | in the document type states, on a byte other than NUL the parser invariant (NUL-separated frame stack, element, attribute and PI pointers at their frames, reference buffer ready) holds again after a token, and the stack is untouched after an error |
| YxmlStep.DtBodyKeeps | recipes-gnss/ublox/ublox-f9/src/firmwareUpdateTool_v21.05/src/yxml.c:482-507 | in the first two document type states, on a byte other than NUL the parser invariant (NUL-separated frame stack, element, attribute and PI pointers at their frames, reference buffer ready) holds again after a token, and the stack is untouched after an error |
| YxmlStep.DtMarkupKeeps | recipes-gnss/ublox/ublox-f9/src/firmwareUpdateTool_v21.05/src/yxml.c:508-543 | in the remaining document type states, on a byte other than NUL the parser invariant (NUL-separated frame stack, element, attribute and PI pointers at their frames, reference buffer ready) holds again after a token, and the stack is untouched after an error |
| YxmlStep.EncKeeps | recipes-gnss/ublox/ublox-f9/src/firmwareUpdateTool_v21.05/src/yxml.c:596-626 | in the encoding declaration states, on a byte other than NUL the parser invariant (NUL-separated frame stack, element, attribute and PI pointers at their frames, reference buffer ready) holds again after a token, and the stack is untouched after an error |
| YxmlStep.EncEqKeeps | recipes-gnss/ublox/ublox-f9/src/firmwareUpdateTool_v21.05/src/yxml.c:596-612 | in the first two encoding states, on a byte other than NUL the parser invariant (NUL-separated frame stack, element, attribute and PI pointers at their frames, reference buffer ready) holds again after a token, and the stack is untouched after an error |
| YxmlStep.EncNameKeeps | recipes-gnss/ublox/ublox-f9/src/firmwareUpdateTool_v21.05/src/yxml.c:613-626 | in the encoding name states, on a byte other than NUL the parser invariant (NUL-separated frame stack, element, attribute and PI pointers at their frames, reference buffer ready) holds again after a token, and the stack is untouched after an error |
| YxmlStep.StdKeeps | recipes-gnss/ublox/ublox-f9/src/firmwareUpdateTool_v21.05/src/yxml.c:854-890 | in the standalone declaration states, on a byte other than NUL the parser invariant (NUL-separated frame stack, element, attribute and PI pointers at their frames, reference buffer ready) holds again after a token, and the stack is untouched after an error |
| YxmlStep.StdEqKeeps | recipes-gnss/ublox/ublox-f9/src/firmwareUpdateTool_v21.05/src/yxml.c:854-870 | in the first two standalone states, on a byte other than NUL the parser invariant (NUL-separated frame stack, element, attribute and PI pointers at their frames, reference buffer ready) holds again after a token, and the stack is untouched after an error |
| YxmlStep.StdValueKeeps | recipes-gnss/ublox/ublox-f9/src/firmwareUpdateTool_v21.05/src/yxml.c:871-890 | in the standalone value states, on a byte other than NUL the parser invariant (NUL-separated frame stack, element, attribute and PI pointers at their frames, reference buffer ready) holds again after a token, and the stack is untouched after an error |
| YxmlStep.VerKeeps | recipes-gnss/ublox/ublox-f9/src/firmwareUpdateTool_v21.05/src/yxml.c:891-923 | in the version states, on a byte other than NUL the parser invariant (NUL-separated frame stack, element, attribute and PI pointers at their frames, reference buffer ready) holds again after a token, and the stack is untouched after an error |
| YxmlStep.VerEqKeeps | recipes-gnss/ublox/ublox-f9/src/firmwareUpdateTool_v21.05/src/yxml.c:891-909 | in the first two version states, on a byte other than NUL the parser invariant (NUL-separated frame stack, element, attribute and PI pointers at their frames, reference buffer ready) holds again after a token, and the stack is untouched after an error |
| YxmlStep.VerNumKeeps | recipes-gnss/ublox/ublox-f9/src/firmwareUpdateTool_v21.05/src/yxml.c:910-923 | in the version number states, on a byte other than NUL the parser invariant (NUL-separated frame stack, element, attribute and PI pointers at their frames, reference buffer ready) holds again after a token, and the stack is untouched after an error |
| YxmlStep.XmldeclKeeps | recipes-gnss/ublox/ublox-f9/src/firmwareUpdateTool_v21.05/src/yxml.c:924-1008 | in the XML declaration states, on a byte other than NUL the parser invariant (NUL-separated frame stack, element, attribute and PI pointers at their frames, reference buffer ready) holds again after a token, and the stack is untouched after an error |
| YxmlStep.XmldeclHeadKeeps | recipes-gnss/ublox/ublox-f9/src/firmwareUpdateTool_v21.05/src/yxml.c:924-949 | in the first three XML declaration states, on a byte other than NUL the parser invariant (NUL-separated frame stack, element, attribute and PI pointers at their frames, reference buffer ready) holds again after a token, and the stack is untouched after an error |
| YxmlStep.XmldeclMidKeeps | recipes-gnss/ublox/ublox-f9/src/firmwareUpdateTool_v21.05/src/yxml.c:950-993 | in the middle three XML declaration states, on a byte other than NUL the parser invariant (NUL-separated frame stack, element, attribute and PI pointers at their frames, reference buffer ready) holds again after a token, and the stack is untouched after an error |
| YxmlStep.XmldeclEndKeeps | recipes-gnss/ublox/ublox-f9/src/firmwareUpdateTool_v21.05/src/yxml.c:994-1008 | in the last two XML declaration states, on a byte other than NUL the parser invariant (NUL-separated frame stack, element, attribute and PI pointers at their frames, reference buffer ready) holds again after a token, and the stack is untouched after an error |
| YxmlStep.StringKeeps | recipes-gnss/ublox/ublox-f9/src/firmwareUpdateTool_v21.05/src/yxml.c:359-366 | while a keyword is matched byte by byte, on a byte other than NUL the parser invariant (NUL-separated frame stack, element, attribute and PI pointers at their frames, reference buffer ready) holds again after a token, and the stack is untouched after an error |
| YxmlStep.CdKeeps | recipes-gnss/ublox/ublox-f9/src/firmwareUpdateTool_v21.05/src/yxml.c:416-445 | in the CDATA states, on a byte other than NUL the parser invariant (NUL-separated frame stack, element, attribute and PI pointers at their frames, reference buffer ready) holds again after a token, and the stack is untouched after an error |
| YxmlStep.OpenElem | recipes-gnss/ublox/ublox-f9/src/firmwareUpdateTool_v21.05/src/yxml.c:669-716 | a start tag's first name byte pushes an element frame and keeps the invariant, or fails with the stack untouched (also line 223 of the same file) |
| YxmlStep.OpenAttr | recipes-gnss/ublox/ublox-f9/src/firmwareUpdateTool_v21.05/src/yxml.c:560-575 | an attribute's first name byte pushes a frame above the element's and keeps the invariant, or fails with the stack untouched (also line 259 of the same file) |
| YxmlStep.OpenPi | recipes-gnss/ublox/ublox-f9/src/firmwareUpdateTool_v21.05/src/yxml.c:812-817 | a PI target's first byte pushes a PI frame and keeps the invariant, or fails with the stack untouched (also line 265 of the same file) |
| YxmlStep.OpenPrologPi | recipes-gnss/ublox/ublox-f9/src/firmwareUpdateTool_v21.05/src/yxml.c:755-767 | a PI right after the prolog's "<?" pushes a PI frame before the root element and resumes in the prolog (also line 265 of the same file) |
| YxmlStep.GrowFrame | recipes-gnss/ublox/ublox-f9/src/firmwareUpdateTool_v21.05/src/yxml.c:544-559 | one more byte of an element, attribute or PI name keeps the invariant, or fails with the stack untouched (also lines 367-378 and 818-829 of the same file) |
| YxmlStep.DropAttr | recipes-gnss/ublox/ublox-f9/src/firmwareUpdateTool_v21.05/src/yxml.c:396-407 | the closing quote of an attribute value pops its frame, returns ATTREND and keeps the invariant (also line 262 of the same file) |
| YxmlStep.DropPi | recipes-gnss/ublox/ublox-f9/src/firmwareUpdateTool_v21.05/src/yxml.c:838-853 | the end of a PI pops its frame and resumes, keeping the invariant (also line 270 of the same file) |
| YxmlStep.DropElem | recipes-gnss/ublox/ublox-f9/src/firmwareUpdateTool_v21.05/src/yxml.c:230-256 | the end of an element pops its frame and keeps the invariant, the root's end leading to the trailing-misc state (also lines 590-595 and 645-652 of the same file) |
| YxmlStep.DropInner | recipes-gnss/ublox/ublox-f9/src/firmwareUpdateTool_v21.05/src/yxml.c:230-237 | the end of an inner element leaves the invariant with the parent element on top |
| YxmlStep.RefBegin | recipes-gnss/ublox/ublox-f9/src/firmwareUpdateTool_v21.05/src/yxml.c:273-277 | a reference start clears the data buffer and keeps the invariant (also lines 784-795 and 396-407 of the same file) |
| YxmlStep.RefMore | recipes-gnss/ublox/ublox-f9/src/firmwareUpdateTool_v21.05/src/yxml.c:280-286 | one more reference byte keeps the invariant, or fails with the stack untouched |
| YxmlStep.RefFinish | recipes-gnss/ublox/ublox-f9/src/firmwareUpdateTool_v21.05/src/yxml.c:289-320 | the reference buffer is NUL-terminated, and the reference's end keeps the invariant or fails with the stack untouched |
| YxmlStep.MatchByte | recipes-gnss/ublox/ublox-f9/src/firmwareUpdateTool_v21.05/src/yxml.c:244-249 | one byte of an end tag matched against the open element's name keeps the invariant, or fails with ECLOSE and the stack untouched (also lines 627-644 of the same file) |
| YxmlStep.AttrKeeps | recipes-gnss/ublox/ublox-f9/src/firmwareUpdateTool_v21.05/src/yxml.c:367-415 | in the attribute states, on a byte other than NUL the parser invariant (NUL-separated frame stack, element, attribute and PI pointers at their frames, reference buffer ready) holds again after a token, and the stack is untouched after an error |
| YxmlStep.AttrNameKeeps | recipes-gnss/ublox/ublox-f9/src/firmwareUpdateTool_v21.05/src/yxml.c:367-395 | in the attribute name states, on a byte other than NUL the parser invariant (NUL-separated frame stack, element, attribute and PI pointers at their frames, reference buffer ready) holds again after a token, and the stack is untouched after an error |
| YxmlStep.AttrValueKeeps | recipes-gnss/ublox/ublox-f9/src/firmwareUpdateTool_v21.05/src/yxml.c:396-415 | in the attribute value states, on a byte other than NUL the parser invariant (NUL-separated frame stack, element, attribute and PI pointers at their frames, reference buffer ready) holds again after a token, and the stack is untouched after an error |
| YxmlStep.ElemKeeps | recipes-gnss/ublox/ublox-f9/src/firmwareUpdateTool_v21.05/src/yxml.c:544-595 | in the start tag states, on a byte other than NUL the parser invariant (NUL-separated frame stack, element, attribute and PI pointers at their frames, reference buffer ready) holds again after a token, and the stack is untouched after an error |
| YxmlStep.ElemNameKeeps | recipes-gnss/ublox/ublox-f9/src/firmwareUpdateTool_v21.05/src/yxml.c:544-575 | in the element name states, on a byte other than NUL the parser invariant (NUL-separated frame stack, element, attribute and PI pointers at their frames, reference buffer ready) holds again after a token, and the stack is untouched after an error |
| YxmlStep.ElemEndKeeps | recipes-gnss/ublox/ublox-f9/src/firmwareUpdateTool_v21.05/src/yxml.c:576-595 | in the start tag end states, on a byte other than NUL the parser invariant (NUL-separated frame stack, element, attribute and PI pointers at their frames, reference buffer ready) holds again after a token, and the stack is untouched after an error |
| YxmlStep.EtagKeeps | recipes-gnss/ublox/ublox-f9/src/firmwareUpdateTool_v21.05/src/yxml.c:627-652 | in the end tag states, on a byte other than NUL the parser invariant (NUL-separated frame stack, element, attribute and PI pointers at their frames, reference buffer ready) holds again after a token, and the stack is untouched after an error |
| YxmlStep.LeKeeps | recipes-gnss/ublox/ublox-f9/src/firmwareUpdateTool_v21.05/src/yxml.c:653-767 | in the states after "<" and at the start, on a byte other than NUL the parser invariant (NUL-separated frame stack, element, attribute and PI pointers at their frames, reference buffer ready) holds again after a token, and the stack is untouched after an error |
| YxmlStep.LeMarkupKeeps | recipes-gnss/ublox/ublox-f9/src/firmwareUpdateTool_v21.05/src/yxml.c:653-668 | in the initial state and after "<!", on a byte other than NUL the parser invariant (NUL-separated frame stack, element, attribute and PI pointers at their frames, reference buffer ready) holds again after a token, and the stack is untouched after an error (also lines 717-754 of the same file) |
| YxmlStep.LePrologKeeps | recipes-gnss/ublox/ublox-f9/src/firmwareUpdateTool_v21.05/src/yxml.c:669-697 | in the prolog states after "<", on a byte other than NUL the parser invariant (NUL-separated frame stack, element, attribute and PI pointers at their frames, reference buffer ready) holds again after a token, and the stack is untouched after an error |
| YxmlStep.MiscKeeps | recipes-gnss/ublox/ublox-f9/src/firmwareUpdateTool_v21.05/src/yxml.c:768-811 | in the states between markup, on a byte other than NUL the parser invariant (NUL-separated frame stack, element, attribute and PI pointers at their frames, reference buffer ready) holds again after a token, and the stack is untouched after an error |
| YxmlStep.MiscOutsideKeeps | recipes-gnss/ublox/ublox-f9/src/firmwareUpdateTool_v21.05/src/yxml.c:768-783 | in the states outside the root element, on a byte other than NUL the parser invariant (NUL-separated frame stack, element, attribute and PI pointers at their frames, reference buffer ready) holds again after a token, and the stack is untouched after an error (also lines 804-811 of the same file) |
| YxmlStep.MiscContentKeeps | recipes-gnss/ublox/ublox-f9/src/firmwareUpdateTool_v21.05/src/yxml.c:784-803 | in the content states, on a byte other than NUL the parser invariant (NUL-separated frame stack, element, attribute and PI pointers at their frames, reference buffer ready) holds again after a token, and the stack is untouched after an error |
| YxmlStep.PiKeeps | recipes-gnss/ublox/ublox-f9/src/firmwareUpdateTool_v21.05/src/yxml.c:812-853 | in the PI states, on a byte other than NUL the parser invariant (NUL-separated frame stack, element, attribute and PI pointers at their frames, reference buffer ready) holds again after a token, and the stack is untouched after an error |
| YxmlStep.Dispatch | recipes-gnss/ublox/ublox-f9/src/firmwareUpdateTool_v21.05/src/yxml.c:358-1009 | the switch of yxml_parse on any state: on a byte other than NUL the parser invariant (NUL-separated frame stack, element, attribute and PI pointers at their frames, reference buffer ready) holds again after a token, and the stack is untouched after an error |
| YxmlStep.Next | recipes-gnss/ublox/ublox-f9/src/firmwareUpdateTool_v21.05/src/yxml.c:334-1010 | yxml_parse keeps the invariant when it returns no error and the stack when it does, NUL and line-end handling included |
| YxmlStep.Initial | recipes-gnss/ublox/ublox-f9/src/firmwareUpdateTool_v21.05/src/yxml.c:323-331 | the initialised parser satisfies the invariant and leaves the caller's stack buffer beyond its first byte as it was |
| YxmlStep.Eof | recipes-gnss/ublox/ublox-f9/src/firmwareUpdateTool_v21.05/src/yxml.c:1013-1017 | yxml_eof returns OK exactly in the state after the root element and EEOF otherwise |
| YxmlProps.NextReady | recipes-gnss/ublox/ublox-f9/src/firmwareUpdateTool_v21.05/src/yxml.c:334-340 | a call that returns no error leaves the tokenizer ready for the next byte, and a NUL byte is refused with ESYN and changes nothing |
| YxmlProps.Position | recipes-gnss/ublox/ublox-f9/src/firmwareUpdateTool_v21.05/src/yxml.c:340-356 | every byte counts in the total; the line feed after a carriage return is swallowed with OK and moves nothing; any other line end starts a new line at column 1; any other byte moves one column |
| YxmlProps.CrLfIsLf | recipes-gnss/ublox/ublox-f9/src/firmwareUpdateTool_v21.05/src/yxml.c:345-355 | "\r\n" is one line break: the carriage return gives what a line feed gives and the line feed after it is swallowed |
| YxmlProps.CrOtherIsLf | recipes-gnss/ublox/ublox-f9/src/firmwareUpdateTool_v21.05/src/yxml.c:345-355 | "\rX" tokenizes as "\nX" for every other byte X |
| YxmlProps.TopIsNul | recipes-gnss/ublox/ublox-f9/src/firmwareUpdateTool_v21.05/src/yxml.c:194-220 | after every call the byte at the stack length is a NUL (also lines 334-1010 of the same file) |
| YxmlProps.PushChars | recipes-gnss/ublox/ublox-f9/src/firmwareUpdateTool_v21.05/src/yxml.c:206-213 | repeated name-byte pushes keep the stack length inside the buffer |
| YxmlProps.GrowOne | recipes-gnss/ublox/ublox-f9/src/firmwareUpdateTool_v21.05/src/yxml.c:206-213 | a successful push appends the byte to the top frame and keeps everything up to the NUL it starts after |
| YxmlProps.GrowTop | recipes-gnss/ublox/ublox-f9/src/firmwareUpdateTool_v21.05/src/yxml.c:206-213 | a run of successful pushes leaves the top frame ending with exactly those bytes, everything below kept |
| YxmlProps.PushPop | recipes-gnss/ublox/ublox-f9/src/firmwareUpdateTool_v21.05/src/yxml.c:194-220 | a frame pushed, grown and popped gives back the stack as it was, and while on the stack holds the start byte and the bytes pushed after it |
| YxmlProps.FrameGrown | recipes-gnss/ublox/ublox-f9/src/firmwareUpdateTool_v21.05/src/yxml.c:194-213 | a frame started with a byte and grown holds that byte followed by the bytes pushed |
| YxmlProps.Utf8RoundTrip | recipes-gnss/ublox/ublox-f9/src/firmwareUpdateTool_v21.05/src/yxml.c:127-144 | the bytes written for a code point are the shortest well-formed UTF-8 sequence of it (RFC 3629) and decode back to it |
| YxmlProps.SetUtf8Written | recipes-gnss/ublox/ublox-f9/src/firmwareUpdateTool_v21.05/src/yxml.c:127-144 | the data buffer holds the sequence followed by a NUL |
| YxmlProps.HexDigitMeaning | recipes-gnss/ublox/ublox-f9/src/firmwareUpdateTool_v21.05/src/yxml.c:100 | yxml_isHex accepts exactly the hexadecimal digits, and the value computed with c or 32 is the digit's worth (also line 295 of the same file) |
| YxmlProps.HexRunValue | recipes-gnss/ublox/ublox-f9/src/firmwareUpdateTool_v21.05/src/yxml.c:294-295 | the hex loop over a run of digits followed by a non-digit gives its positional value on top of the accumulator, when that fits 32 bits |
| YxmlProps.HexRunStep | recipes-gnss/ublox/ublox-f9/src/firmwareUpdateTool_v21.05/src/yxml.c:294-295 | one hex digit is one shift by four plus the digit |
| YxmlProps.DecRunValue | recipes-gnss/ublox/ublox-f9/src/firmwareUpdateTool_v21.05/src/yxml.c:297-298 | the decimal loop over a run of digits followed by a non-digit gives its positional value on top of the accumulator, when that fits 32 bits |
| YxmlProps.DecRunStep | recipes-gnss/ublox/ublox-f9/src/firmwareUpdateTool_v21.05/src/yxml.c:297-298 | one decimal digit is one multiplication by ten plus the digit |
| YxmlProps.HexRunSpan | recipes-gnss/ublox/ublox-f9/src/firmwareUpdateTool_v21.05/src/yxml.c:294 | the hex loop passes only hex digits |
| YxmlProps.DecRunSpan | recipes-gnss/ublox/ublox-f9/src/firmwareUpdateTool_v21.05/src/yxml.c:297 | the decimal loop passes only decimal digits |
| YxmlProps.PadEq | recipes-gnss/ublox/ublox-f9/src/firmwareUpdateTool_v21.05/src/yxml.c:302-308 | two NUL-free names padded with NULs to the same length are equal exactly when the names are |
| YxmlProps.NamedCharMeaning | recipes-gnss/ublox/ublox-f9/src/firmwareUpdateTool_v21.05/src/yxml.c:301-309 | the five-byte comparison selects '<', '>', '&', apostrophe or quote exactly when the name is lt, gt, amp, apos or quot, and 0 otherwise |
| YxmlProps.NamedPadded | recipes-gnss/ublox/ublox-f9/src/firmwareUpdateTool_v21.05/src/yxml.c:302-308 | the entity chosen depends only on the name padded to five bytes |
| YxmlProps.RefValueMeaning | recipes-gnss/ublox/ublox-f9/src/firmwareUpdateTool_v21.05/src/yxml.c:289-309 | the value computed from the reference buffer is the meaning of the reference: the named entity, or the number after "#" or "#x" when only digits follow, and 0 otherwise |
| YxmlProps.HexRefValue | recipes-gnss/ublox/ublox-f9/src/firmwareUpdateTool_v21.05/src/yxml.c:293-295 | for "#x" the loop reaches the terminating NUL exactly when only hex digits follow, and then gives their value (also lines 299-300 of the same file) |
| YxmlProps.DecRefValue | recipes-gnss/ublox/ublox-f9/src/firmwareUpdateTool_v21.05/src/yxml.c:296-300 | for "#" the loop reaches the terminating NUL exactly when only decimal digits follow, and then gives their value |
| YxmlProps.RefCollect | recipes-gnss/ublox/ublox-f9/src/firmwareUpdateTool_v21.05/src/yxml.c:273-286 | after the reference start the buffer holds the reference bytes read so far padded with NULs, and the eighth byte is refused with EREF |
| YxmlProps.RefusedMeaning | recipes-gnss/ublox/ublox-f9/src/firmwareUpdateTool_v21.05/src/yxml.c:312 | the intended test, with (ch - 0xD800) < 0x800, refuses exactly the code points that are not an XML Char (0, surrogates, U+FFFE, U+FFFF, beyond U+10FFFF) |
| YxmlProps.RefusedExactly | recipes-gnss/ublox/ublox-f9/src/firmwareUpdateTool_v21.05/src/yxml.c:312 | the test as written refuses 0, U+FFFE, U+FFFF, code points beyond U+10FFFF and exactly the range 0xDFFF to 0xE7FD |
| YxmlProps.RefusedAsWrittenWrong | recipes-gnss/ublox/ublox-f9/src/firmwareUpdateTool_v21.05/src/yxml.c:312 | the test as written and used by the tokenizer lets the surrogate U+D800 through and refuses the Char U+E000 |
| YxmlProps.RefEndMeaning | recipes-gnss/ublox/ublox-f9/src/firmwareUpdateTool_v21.05/src/yxml.c:289-320 | the end of a reference gives EREF exactly when the test as written refuses the code point it names, and otherwise the caller's token with the UTF-8 encoding of the character and a NUL in the data buffer |
| YxmlProps.AttrWhitespace | recipes-gnss/ublox/ublox-f9/src/firmwareUpdateTool_v21.05/src/yxml.c:186-191 | in an attribute value a tab, line feed, carriage return or space comes out as a single space with ATTRVAL (section 3.3.3 of XML 1.0) (also lines 396-407 of the same file) |
| YxmlProps.EtagByte | recipes-gnss/ublox/ublox-f9/src/firmwareUpdateTool_v21.05/src/yxml.c:244-249 | a name byte of an end tag is OK exactly when it matches the open element's next byte, which then advances the match (also lines 633-644 of the same file) |
| YxmlProps.EtagClose | recipes-gnss/ublox/ublox-f9/src/firmwareUpdateTool_v21.05/src/yxml.c:252-256 | the '>' of an end tag gives ELEMEND exactly when the whole element name has been matched, and ECLOSE otherwise (also lines 633-644 of the same file) |
| YxmlProps.EtagRest | recipes-gnss/ublox/ublox-f9/src/firmwareUpdateTool_v21.05/src/yxml.c:244-256 | an end tag gives ELEMEND exactly when its name is the rest of the open element's name, and ECLOSE otherwise (also lines 627-652 of the same file) |
| YxmlProps.EofAfterRoot | recipes-gnss/ublox/ublox-f9/src/firmwareUpdateTool_v21.05/src/yxml.c:1013-1017 | yxml_eof accepts only once the root element has closed: the stack is empty and the element pointer back at offset 0 (also lines 230-241 of the same file) |
| YxmlParser.Parser.constructor | recipes-gnss/ublox/ublox-f9/src/firmwareUpdateTool_v21.05/src/yxml.c:323-331 | the parser keeps the caller's buffer as its stack and starts in the initial state, which satisfies the parser invariant |
| YxmlParser.Parser.PushStack | recipes-gnss/ublox/ublox-f9/src/firmwareUpdateTool_v21.05/src/yxml.c:194-203 | the stack and the chosen pointer are updated as a frame push says, ESTACK when it would not fit |
| YxmlParser.Parser.PushStackC | recipes-gnss/ublox/ublox-f9/src/firmwareUpdateTool_v21.05/src/yxml.c:206-213 | the stack is updated as a name-byte push says, ESTACK when it would not fit |
| YxmlParser.Parser.PopStack | recipes-gnss/ublox/ublox-f9/src/firmwareUpdateTool_v21.05/src/yxml.c:216-220 | the loop walks the stack length back to the NUL below the top frame |
| YxmlParser.Parser.SelfClose | recipes-gnss/ublox/ublox-f9/src/firmwareUpdateTool_v21.05/src/yxml.c:230-241 | the top frame is popped and the element pointer walked back to the start of the element below, or to offset 0 with the after-root state |
| YxmlParser.Parser.ElemClose | recipes-gnss/ublox/ublox-f9/src/firmwareUpdateTool_v21.05/src/yxml.c:244-249 | ECLOSE on a byte that does not match the open element's name, else the match advances |
| YxmlParser.Parser.ElemCloseEnd | recipes-gnss/ublox/ublox-f9/src/firmwareUpdateTool_v21.05/src/yxml.c:252-256 | ECLOSE when the name is not fully matched, else the element is closed |
| YxmlParser.Parser.PiNameEnd | recipes-gnss/ublox/ublox-f9/src/firmwareUpdateTool_v21.05/src/yxml.c:267-269 | ESYN for a PI target spelling "xml" in any case, PISTART otherwise |
| YxmlParser.Parser.PiValEnd | recipes-gnss/ublox/ublox-f9/src/firmwareUpdateTool_v21.05/src/yxml.c:270 | the PI frame is popped, the PI pointer reset and PIEND returned |
| YxmlParser.Parser.DataContent | recipes-gnss/ublox/ublox-f9/src/firmwareUpdateTool_v21.05/src/yxml.c:147-151 | the data buffer holds the byte and a NUL, the result is CONTENT |
| YxmlParser.Parser.DataPi1 | recipes-gnss/ublox/ublox-f9/src/firmwareUpdateTool_v21.05/src/yxml.c:154-158 | the data buffer holds the byte and a NUL, the result is PICONTENT |
| YxmlParser.Parser.DataPi2 | recipes-gnss/ublox/ublox-f9/src/firmwareUpdateTool_v21.05/src/yxml.c:161-166 | the data buffer holds '?', the byte and a NUL, the result is PICONTENT |
| YxmlParser.Parser.DataCd1 | recipes-gnss/ublox/ublox-f9/src/firmwareUpdateTool_v21.05/src/yxml.c:169-174 | the data buffer holds ']', the byte and a NUL, the result is CONTENT |
| YxmlParser.Parser.DataCd2 | recipes-gnss/ublox/ublox-f9/src/firmwareUpdateTool_v21.05/src/yxml.c:177-183 | the data buffer holds "]]", the byte and a NUL, the result is CONTENT |
| YxmlParser.Parser.DataAttr | recipes-gnss/ublox/ublox-f9/src/firmwareUpdateTool_v21.05/src/yxml.c:186-191 | the data buffer holds the byte, tab and line feed turned into a space, and a NUL; the result is ATTRVAL |
| YxmlParser.Parser.SetUtf8 | recipes-gnss/ublox/ublox-f9/src/firmwareUpdateTool_v21.05/src/yxml.c:127-144 | the data buffer holds the UTF-8 encoding written for the code point and a NUL |
| YxmlParser.Parser.RefStart | recipes-gnss/ublox/ublox-f9/src/firmwareUpdateTool_v21.05/src/yxml.c:273-277 | the data buffer is cleared and the reference length reset |
| YxmlParser.Parser.Ref | recipes-gnss/ublox/ublox-f9/src/firmwareUpdateTool_v21.05/src/yxml.c:280-286 | EREF once seven bytes are held, else the byte is appended to the reference |
| YxmlParser.Parser.RefEnd | recipes-gnss/ublox/ublox-f9/src/firmwareUpdateTool_v21.05/src/yxml.c:289-316 | the digit loops, the entity names, the Char test as written and the UTF-8 encoding give what the reference end specifies: EREF or the caller's token with the character in the data buffer |
| YxmlParser.Parser.RefCodePoint | recipes-gnss/ublox/ublox-f9/src/firmwareUpdateTool_v21.05/src/yxml.c:290-309 | the hexadecimal and decimal digit loops and the five entity names give the code point the reference specifies, 0 when digits are followed by anything |
| YxmlParser.Parser.StringStep | recipes-gnss/ublox/ublox-f9/src/firmwareUpdateTool_v21.05/src/yxml.c:359-366 | the parser's fields after the call are the step function's result on the fields before, counters unchanged, for the keyword states |
| YxmlParser.Parser.AttrStep | recipes-gnss/ublox/ublox-f9/src/firmwareUpdateTool_v21.05/src/yxml.c:367-415 | the parser's fields after the call are the step function's result on the fields before, counters unchanged, for the attribute states |
| YxmlParser.Parser.CdStep | recipes-gnss/ublox/ublox-f9/src/firmwareUpdateTool_v21.05/src/yxml.c:416-445 | the parser's fields after the call are the step function's result on the fields before, counters unchanged, for the CDATA states |
| YxmlParser.Parser.CommentStep | recipes-gnss/ublox/ublox-f9/src/firmwareUpdateTool_v21.05/src/yxml.c:446-481 | the parser's fields after the call are the step function's result on the fields before, counters unchanged, for the comment states |
| YxmlParser.Parser.DtStep | recipes-gnss/ublox/ublox-f9/src/firmwareUpdateTool_v21.05/src/yxml.c:482-543 | the parser's fields after the call are the step function's result on the fields before, counters unchanged, for the document type states |
| YxmlParser.Parser.ElemStep | recipes-gnss/ublox/ublox-f9/src/firmwareUpdateTool_v21.05/src/yxml.c:544-595 | the parser's fields after the call are the step function's result on the fields before, counters unchanged, for the start tag states |
| YxmlParser.Parser.EncStep | recipes-gnss/ublox/ublox-f9/src/firmwareUpdateTool_v21.05/src/yxml.c:596-626 | the parser's fields after the call are the step function's result on the fields before, counters unchanged, for the encoding states |
| YxmlParser.Parser.EtagStep | recipes-gnss/ublox/ublox-f9/src/firmwareUpdateTool_v21.05/src/yxml.c:627-652 | the parser's fields after the call are the step function's result on the fields before, counters unchanged, for the end tag states |
| YxmlParser.Parser.LeStep | recipes-gnss/ublox/ublox-f9/src/firmwareUpdateTool_v21.05/src/yxml.c:653-767 | the parser's fields after the call are the step function's result on the fields before, counters unchanged, for the initial state and the states after "<" |
| YxmlParser.Parser.MiscStep | recipes-gnss/ublox/ublox-f9/src/firmwareUpdateTool_v21.05/src/yxml.c:768-811 | the parser's fields after the call are the step function's result on the fields before, counters unchanged, for the states between markup |
| YxmlParser.Parser.PiStep | recipes-gnss/ublox/ublox-f9/src/firmwareUpdateTool_v21.05/src/yxml.c:812-853 | the parser's fields after the call are the step function's result on the fields before, counters unchanged, for the PI states |
| YxmlParser.Parser.StdStep | recipes-gnss/ublox/ublox-f9/src/firmwareUpdateTool_v21.05/src/yxml.c:854-890 | the parser's fields after the call are the step function's result on the fields before, counters unchanged, for the standalone states |
| YxmlParser.Parser.VerStep | recipes-gnss/ublox/ublox-f9/src/firmwareUpdateTool_v21.05/src/yxml.c:891-923 | the parser's fields after the call are the step function's result on the fields before, counters unchanged, for the version states |
| YxmlParser.Parser.XmldeclStep | recipes-gnss/ublox/ublox-f9/src/firmwareUpdateTool_v21.05/src/yxml.c:924-1008 | the parser's fields after the call are the step function's result on the fields before, counters unchanged, for the XML declaration states |
| YxmlParser.Parser.Step | recipes-gnss/ublox/ublox-f9/src/firmwareUpdateTool_v21.05/src/yxml.c:358-1009 | the switch gives the dispatched step's result and leaves the parser valid when it returns no error |
| YxmlParser.Parser.Advance | recipes-gnss/ublox/ublox-f9/src/firmwareUpdateTool_v21.05/src/yxml.c:349-1009 | for a byte not swallowed after a CR, the line and column counters, the CR-LF memory and the state machine end as the specified next tokenizer |
| YxmlParser.Parser.Parse | recipes-gnss/ublox/ublox-f9/src/firmwareUpdateTool_v21.05/src/yxml.c:334-1010 | one call of yxml_parse: the tokenizer after it is the specified next tokenizer for the input byte taken modulo 256, and the parser stays valid when it returns no error |

## Left out

- Transport drivers in platform.c: termios and Win32 COM ports, Aardvark and Diolan calls, sockets, the HTTP baud request, STDIO, opening and re-enumerating a port, and console handling. The serial and SPI ports are abstract drivers: what they receive and what they accept are parameters of the model.
- MESSAGE and every other console output, including the floating-point timestamp, and updDumpAck: output only.
- TIME_GET and TIME_SLEEP become an explicit clock field `now` that sleeping advances. The 32-bit wrap of the millisecond clock is not modelled.
- u2cbridge.c is not part of this model. It only binds a vendor library and is compiled out.
- File plumbing is left out: `fopen`/`fread` in flash.c and image.c, and `read`/`lseek` in mergefis.c. Only the descriptor parse and the padding rule of OpenAndBufferFile are modelled.
- The XML tree walk of mergefis.c (findNextInXml, buildXmlTree, findDevice, findCmdSet, freeXmlTree, mergefis_load) is left out. `MergeFisLoad.MergeFisLoad2` takes the device found (with its category) and the command sets by name as parameters and models everything after the search.
- UpdateFirmware's device script in update.c is left out: the sequence of polls and configuration messages. Its pieces are modelled: the generation lookup, the ROM tables, the compatibility rule, the packet count, the RAM transfer, the verify check and the marker address. The parsing of the ROM CRC reply is left out too.
- CanSendParentCommands is left out: it is display and sequencing logic.
- rcvConnect, rcvDisconnect, rcvReenumerate and rcvFlushBuffer are left out: they only call the port driver.
- Allocation failures are not modelled: `malloc` returning NULL and the MERGEFIS_UNKNOWN result for NULL arguments, which Dafny's types exclude.
- Undefined behaviour in the source is stated as a precondition and not modelled:
  - an erase-failure ack for an address outside the flash (Sector == -1 indexes the arrays);
  - a write ack for a packet at or beyond NumberPackets;
  - the stale header reused after an oversized length in UbxSearchMsg;
  - more than eight hex digits in stringToU4, which overflow its four-byte buffer;
  - an image checksum range beyond the end of the file in ValidateImage;
  - a descriptor token on which the parse loop of GetFlashOrganisation makes no progress.
- Where the source would index past its arrays in these cases, `UpdateCore` returns `OutOfRange`.
- Platform.SpiPort.SerWriteSpi requires `FLWRI_DATA + writeSize <= |msg|` for an UPD-FLWRI message: SER_WRITE_SPI reads `pData[pos]` for every position below `writeSize`, whatever the message size. Every caller in the source passes a frame built with that size.
- MergeFis.MergeFisMerge requires the bounds of its memcpy: `FIS_IMAGE_END <= data.Length` and at least 0xFC0 bytes of FIS. Every caller in the source passes a full image and a full FIS.
- Receiver.Session.ReceiveMessage: requires that no frame buffered or still to arrive declares a payload too large for a frame (`NoOversized`). This is stronger than excluding only the stale-header case.
- UpdateEngine.Engine.Update: the update loop carries a fuel bound and returns `OutOfFuel` when it runs out. The source loops until success or failure, so a run that never ends is not modelled.
- UpdateEngine.Engine.Update: on success it states that every sector was erased and every packet written in the ghost snapshots taken at the end of the two scans. A late ack can still change the final state.
- UpdateEngine.Engine.Valid requires at least one flash block, because GetSectorNrForAddress needs one. The image must also satisfy `|image| + 512 <= 2^32` so that packet addresses stay within 32 bits.
- UpdateEngine: the source's three parallel arrays per sector and per packet (state, deadline, retry count) are a single array of `Slot` records.
- UpdateCore.HandleWriteAck leaves out the `Packet != -1` test of the write-ack branch. GetPacketNrForAddress never returns -1 when PACKETSIZE is 512, so the test is always true.
- Update.ExtractHwGeneration requires `HwReadable`: the first byte of the HW string must lie inside the copied frame whenever it is read. Reading past the frame is undefined in the source.
- Yxml: yxml.h is not part of this model.
  - The return codes are a datatype.
  - The data buffer is 8 bytes, as in the upstream yxml.
  - `reflen`, `line`, `byte` and `total` are unbounded rather than the header's fixed widths.
- YxmlParser.Parser.Parse requires `Valid()`: the parser must have been initialised and every earlier call must have returned no error. The source leaves calls after an error undefined.
- Yxml.Utf8 writes the bit operations of yxml_setutf8 as division and remainder.
- YxmlProps.AttrWhitespace: stated for a value quoted with an apostrophe or a quotation mark, which is the only way the tokenizer enters an attribute value.
- YxmlParser: `Step` calls one method per group of states, splitting the single switch of yxml_parse. The order of tests inside each case is the source's.
- Yxml: a reference longer than seven bytes gives EREF, as yxml_ref does with its 8-byte buffer.
- MergeFis.EditTable2 converts every setting before it makes the first write. The source interleaves them, and this is equivalent because no conversion reads the table.
- MergeFis.StringToU4 copies nothing back to the caller. The padding it writes into its argument is its ensures on `str`.
- Preconditions that rule out inputs the source aborts on or leaves undefined; the model says nothing about those inputs:
  - MergeFisLoad.MergeFisLoad2 requires `Load2Defined`, and so do MergeFisLoad.Load2, MergeFisLoad.Load2OkSealed, MergeFisLoad.Load2OkJedec, MergeFisLoad.Load2OkRevision, MergeFisLoad.Load2Errors, MergeFisLoad.Load2Corrupted and MergeFisLoad.Load2OkVersion. A command set with code needs a checksum child, whose absence fails the assertion in hex_string_to_char_array (mergefis.c:475). Its length must be a number stringToU4 converts and at least 4, since dataSize - 4 wraps around below that (mergefis.c:1345-1348). The code must fit in the buffer and the checksum in four bytes. Once the CRC matches, the length must be at least 7, at least REVISION_POSITION + 4 with a revision string, and large enough for the settings of the device and of the category (`EditFits`).
  - MergeFis.EditTable2 requires `EditFits`: the table must be long enough for every setting the container writes, and every number must convert. Otherwise edit_table2 writes past the table.
  - MergeFis.UpdateImageCrc requires `12 <= imageSize`, and so do MergeFis.StoreImageCrc and MergeFis.MergeFisMerge. Below that, `ImageSize - 8` and `crcpos - 4` wrap around in UpdateImageCrc (mergefis.c:541-542).
  - Flash.GetSectorNrForSize requires `Fits` (a flash below 4 GiB), and so do Flash.GetPacketNrForSector and Flash.GetSectorNrForAddress. On a larger flash the U4 sums of the source wrap around, and that wrap-around is not modelled.
- Command line, rendering and values:
  - CmdLine: the usage text and `exename` are output only and are left out.
  - CmdLine: C strings are NUL-free sequences.
  - CmdLine: the port string is held as a copy, so the aliasing of the argv pointer is not modelled.
- CmdLine.Run: the outcome of UpdateFirmware is the parameter `updateSucceeds`.
- CmdLine.Run: main's `clArgs` starts uninitialised, and ParseArguments copies `defaultargs` into it before any option is read (main.c:455). The model allocates the record holding `Defaults`, which that copy overwrites, so no uninitialised field is observable.

## Findings

| source | as written | input that shows it | evidently intended | confidence | as-written member | corrected member |
|---|---|---|---|---|---|---|
| recipes-gnss/ublox/ublox-f9/src/firmwareUpdateTool_v21.05/src/yxml.c:312 | `(ch-0xDFFF) < 0x7FF` refuses the code points 0xDFFF to 0xE7FD | the reference `&#xD800;` is accepted and `&#xE000;` is refused | `(ch-0xD800) < 0x800`, refusing exactly the surrogates 0xD800 to 0xDFFF, so that only XML Chars pass | not executed | YxmlProps.RefusedAsWrittenWrong | YxmlProps.RefusedMeaning |

The tokenizer uses `Yxml.Refused`, the test as written, as the program does, so the model parses what the program parses. `YxmlProps.RefusedExactly` states the code points it refuses, and `YxmlProps.RefusedAsWrittenWrong` exhibits the two code points above. `YxmlProps.RefusedIntended` is the corrected test, and `YxmlProps.RefusedMeaning` proves that it refuses exactly the code points that are not a Char.
