# i75w-multiverse firmware core, in Dafny

A model of the logic of the i75w-multiverse firmware for a network-attached
HUB75 LED matrix. The firmware receives frames and settings over TCP and the
USB serial port, keeps its configuration in a table in the last flash sector,
and writes text to the panel. The model covers:

- **Configuration table** (`ConfigLayout`, `ConfigStore`, `Crc32`, `Widening`).
  These model the 26-slot `KVStore` with its 16-byte keys and 128-byte values:
  lookup, update-or-append, delete with left shift, the dirty flag, and the
  commit to flash.
  - The commit is sealed with the reflected CRC-32 of clause 3.2.9 of IEEE 802.3.
  - The load checks the magic word, the entry count and the checksum, resets
    the table on any failure, and seeds the defaults.
  - Flash is a byte sequence. Commit followed by load is proved to give back
    the table.
- **Protocol constants** (`Protocol`): the closed set of four-character command
  codes, and the 19-byte header: `multiverse:`, a big-endian u32 size and the code.
- **TCP reassembler and dispatcher of `ApiServer`** (`Reassembly` as functions,
  `Server.ApiServer` as a class proved equal to them). Also part of it:
  - `safe_stoi` and the rotation rule;
  - the Wi-Fi authentication schedule (`Wifi`), with the radio as an oracle;
  - the multicast discovery reply.
- **USB serial command loops.**
  - `Serial` holds the escape-aware field reader, the zero-filling byte read
    and the prefix wait. The end of the input stands for the timeout.
  - `Usb` models `UsbHandler`; `MainLoop` models the older loop in `main.cpp`,
    with its defaults.
- **Superseded TCP decoder** (`OldTcp`). It copies raw frames into the frame
  buffer, and its `process_message` hands a buffered message to a callback in
  1460-byte pieces.
- **Text consoles.**
  - `Matrix` covers the character deque of `matrix.cpp`: `print`, `scroll`,
    `clearscreen`, the lines `info` draws and the colour-order normalisation.
  - `Display` covers the RGB888 shadow buffer of `display.cpp`: `scroll_up` in
    place, `update`, and the cursor of `print`.

Where the source updates state in place, the model does too:
- a class with array fields and loops;
- each method proved equal to a function on values;
- the properties proved as lemmas about those functions.

Rendering (`measure_text`) is a parameter, and so are zlib's `uncompress` and
the network addresses.

## Model

| member | source | states |
|---|---|---|
| Bytes.IndexOf | src/server/server.cpp:425 | the position found holds the delimiter and no earlier byte does; no position means the delimiter is absent |
| Bytes.AsciiChars | src/config_storage/config_storage.cpp:9-11 | a string stored as bytes reads back as the same string |
| Bytes.CharsAscii | src/config_storage/config_storage.cpp:9-11 | bytes read as a string and stored again are the same bytes |
| Bytes.LittleEndianU32 | src/config_storage/config_storage.hpp:38-43 | the first byte of a stored uint32_t field is its low byte |
| Bytes.EncodeLittleEndianU32 | src/config_storage/config_storage.hpp:38-43 | a uint32_t field occupies four bytes, low byte first |
| Bytes.LittleEndianRoundTrip | src/config_storage/config_storage.hpp:38-43 | a uint32_t field written to memory reads back as the same value |
| Bytes.LittleEndianDecodeRoundTrip | src/config_storage/config_storage.hpp:38-43 | any four bytes are the image of the value they decode to |
| Bytes.LittleEndianInjective | src/config_storage/config_storage.hpp:38-43 | different values have different images |
| Bytes.BigEndianU32 | src/server/server.cpp:277-280 | the header's size field puts its least significant byte last |
| Bytes.EncodeBigEndianU32 | src/server/server.cpp:277-280 | the size a client writes is four bytes, most significant first |
| Bytes.BigEndianRoundTrip | src/server/server.cpp:277-280 | the size decoded from an encoded header field is the size encoded |
| Bytes.BigEndianDecodeRoundTrip | src/server/server.cpp:277-280 | any four size bytes are the encoding of the size they decode to |
| Bytes.Decimal | src/server/server.cpp:508-514 | std::to_string gives at least one digit, and no leading zero |
| Bytes.DecimalRoundTrip | src/server/server.cpp:508-514 | the digits written by std::to_string read back as the number |
| Bytes.DecimalInjective | src/server/server.cpp:508-514 | different numbers are written differently |
| Bytes.DecimalLength | src/server/server.cpp:508-514 | a number below 10^k is written in at most k digits |
| Bytes.Pow10Digits | src/server/server.cpp:508-514 | 10^k is written as a one followed by k zeros, k + 1 digits |
| Widening.WidenValue | src/config_storage/config_storage.cpp:67 | a byte XOR-ed into the 32-bit register keeps its value |
| Widening.WidenInjective | src/config_storage/config_storage.cpp:67 | different bytes widen to different words |
| Widening.WordValueInjective | src/config_storage/config_storage.hpp:42 | different checksums are different stored field values |
| Crc32.StepBranchFree | src/config_storage/config_storage.cpp:69 | the branch-free shift agrees with "shift, then XOR the polynomial if the low bit was set" |
| Crc32.RegisterSnoc | src/config_storage/config_storage.cpp:66-71 | the register after n bytes is the register after n-1 bytes with the n-th absorbed |
| Crc32.AbsorbBits | src/config_storage/config_storage.cpp:67-70 | the inner loop absorbs one byte into the register |
| Crc32.CalculateCrc32 | src/config_storage/config_storage.cpp:64-73 | calculateCRC32 returns the complemented register over all the bytes |
| Crc32.StepInjective | src/config_storage/config_storage.cpp:69 | one shift step loses no information |
| Crc32.ShiftsInjective | src/config_storage/config_storage.cpp:68-70 | eight shift steps lose no information |
| Crc32.AbsorbWordInjective | src/config_storage/config_storage.cpp:67-70 | absorbing a word is injective in the register and in the word |
| Crc32.AbsorbInjective | src/config_storage/config_storage.cpp:67-70 | absorbing a byte is injective in the register and in the byte |
| Crc32.AbsorbDiffers | src/config_storage/config_storage.cpp:67-70 | a different register or a different byte gives a different register |
| Crc32.RegistersDifferAt | src/config_storage/config_storage.cpp:66-71 | two inputs with a common prefix part at the first differing byte |
| Crc32.RegistersStayApart | src/config_storage/config_storage.cpp:66-71 | registers that differ stay different while the bytes agree |
| Crc32.RegistersDifferAfter | src/config_storage/config_storage.cpp:66-71 | inputs differing in one byte have different registers from that byte on |
| Crc32.SingleByteErrorDetected | src/config_storage/config_storage.cpp:64-73 | changing any one byte of the data changes its CRC-32 |
| ConfigLayout.FlashStorageBase | src/config_storage/config_storage.hpp:8-11 | the storage sector is the last 4096-byte sector of the flash, sector-aligned when the flash size is |
| ConfigLayout.EmptyRecord | src/config_storage/config_storage.cpp:25-26 | the reset record has the magic word, no entries, a zero checksum field and zeroed slots |
| ConfigLayout.Serialize | src/config_storage/config_storage.cpp:55 | the programmed image is RECORD_SIZE bytes, at most one sector, and ends with the little-endian checksum field |
| ConfigLayout.SlotRoundTrip | src/config_storage/config_storage.hpp:33-36 | a slot read back from its bytes is the slot that was written |
| ConfigLayout.SlotDecodeRoundTrip | src/config_storage/config_storage.hpp:33-36 | every slot-sized byte string is the image of the slot it decodes to |
| ConfigLayout.SlotsRoundTrip | src/config_storage/config_storage.hpp:41 | the slot array read back from its bytes is the array that was written |
| ConfigLayout.SlotsDecodeRoundTrip | src/config_storage/config_storage.hpp:41 | every slot-array image is the image of the array it decodes to |
| ConfigLayout.ParseSerialize | src/config_storage/config_storage.cpp:22 | the memcpy out of flash gives back the record whose bytes were programmed |
| ConfigLayout.SerializeParse | src/config_storage/config_storage.cpp:22 | every RECORD_SIZE-byte image is the image of the record read from it |
| ConfigLayout.CrcFieldIsLast | src/config_storage/config_storage.cpp:51-52 | only the last four bytes of the image depend on the checksum field |
| ConfigLayout.RecordFitsSector | src/config_storage/config_storage.hpp:38-43 | the record is 3964 bytes, within the erased sector; the header's layout (3756 bytes) fits too |
| ConfigStore.MatchesIffSameKey | src/config_storage/config_storage.cpp:76-79 | compareKeys holds exactly when the slot holds the same key (length and bytes) |
| ConfigStore.FindFrom | src/config_storage/config_storage.cpp:83-87 | the lookup returns the first matching entry below entry_count, and none exists when it returns nothing |
| ConfigStore.GetInto | src/config_storage/config_storage.cpp:92-101 | found exactly when a key matches; the copy is the value cut to the buffer size, nothing when not found |
| ConfigStore.WriteValue | src/config_storage/config_storage.cpp:126-127 | the slot now reads back the new value and keeps its key |
| ConfigStore.WriteKey | src/config_storage/config_storage.cpp:135-136 | the slot now holds the new key and keeps its value |
| ConfigStore.Set | src/config_storage/config_storage.cpp:118-145 | setParam succeeds exactly when the key and value fit and the key exists or there is room; a refusal changes nothing |
| ConfigStore.Delete | src/config_storage/config_storage.cpp:152-164 | deleteParam succeeds exactly when the key is stored; a miss changes nothing |
| ConfigStore.Shifted | src/config_storage/config_storage.cpp:155-157 | each slot from the deleted one to the second-last takes the next slot; the others are unchanged |
| ConfigStore.SetExisting | src/config_storage/config_storage.cpp:124-131 | updating an existing key replaces only its value in place and it reads back |
| ConfigStore.SetNew | src/config_storage/config_storage.cpp:134-142 | a new key is appended at entry_count and reads back |
| ConfigStore.SetFull | src/config_storage/config_storage.cpp:144 | with 26 entries a new key is refused and nothing changes |
| ConfigStore.SetOthersUnchanged | src/config_storage/config_storage.cpp:118-145 | setting one key never changes what another key reads back |
| ConfigStore.SetKeepsKeysDistinct | src/config_storage/config_storage.cpp:124-142 | setParam never creates a second entry for a key |
| ConfigStore.DeleteRemoves | src/config_storage/config_storage.cpp:153-160 | delete removes exactly the matching entry and keeps the order of the rest |
| ConfigStore.DeleteThenGet | src/config_storage/config_storage.cpp:152-164 | with distinct keys, a deleted key reads back empty and the keys stay distinct |
| ConfigStore.Sealed | src/config_storage/config_storage.cpp:51-52 | sealing changes only the checksum field |
| ConfigStore.Image | src/config_storage/config_storage.cpp:54-55 | the sector after erase and program starts with the sealed record's image |
| ConfigStore.Commit | src/config_storage/config_storage.cpp:47-61 | commit returns the dirty flag and clears it; a clean store is unchanged; a dirty one has the sealed record programmed |
| ConfigStore.CommitWrites | src/config_storage/config_storage.cpp:51-58 | a dirty commit leaves the sealed record followed by erased bytes, and returns true |
| ConfigStore.CommitTwice | src/config_storage/config_storage.cpp:48 | a second commit without a change returns false and does nothing |
| ConfigStore.StoreSet | src/config_storage/config_storage.cpp:128 | a successful set marks the store dirty and leaves the flash alone |
| ConfigStore.StoreDelete | src/config_storage/config_storage.cpp:159 | a successful delete marks the store dirty and leaves the flash alone |
| ConfigStore.Checked | src/config_storage/config_storage.cpp:20-36 | the loaded record is either the sector's record with a zeroed checksum field or the empty record |
| ConfigStore.HeaderChecked | src/config_storage/config_storage.cpp:24-27 | a bad magic word or a count over 26 resets the record; a good header keeps it |
| ConfigStore.ChecksumChecked | src/config_storage/config_storage.cpp:29-36 | the checksum field ends zeroed; a mismatch resets the record |
| ConfigStore.SeedOne | src/config_storage/config_storage.cpp:40-42 | applying one default keeps the record well-formed |
| ConfigStore.SeedDefaults | src/config_storage/config_storage.cpp:39-43 | applying the defaults keeps the record well-formed |
| ConfigStore.Load | src/config_storage/config_storage.cpp:14-17 | the constructor's store is well-formed and keeps the sector |
| ConfigStore.CommitLoadRoundTrip | src/config_storage/config_storage.cpp:20-36 | a committed record passes every check of the next load and reads back unchanged |
| ConfigStore.CheckedRejectsMismatch | src/config_storage/config_storage.cpp:33-36 | a stored checksum that differs from the recomputed one resets the table |
| ConfigStore.SealedImage | src/config_storage/config_storage.cpp:51-52 | a committed image holds the CRC-32 of its other bytes with the field zeroed |
| ConfigStore.CorruptBody | src/config_storage/config_storage.cpp:29-33 | one corrupted byte before the checksum field makes the comparison fail |
| ConfigStore.CorruptChecksum | src/config_storage/config_storage.cpp:29-33 | one corrupted byte of the checksum field makes the comparison fail |
| ConfigStore.SingleByteCorruptionResets | src/config_storage/config_storage.cpp:20-36 | any single corrupted byte of a committed record makes the load reset the table |
| ConfigStore.DefaultsSeeded | src/config_storage/config_storage.cpp:39-43 | after loading, a default whose key read back empty reads back as its value; a present key keeps its value |
| ConfigStore.SeedCount | src/config_storage/config_storage.cpp:39-43 | the defaults add at most one entry each |
| ConfigStore.SeedUntouched | src/config_storage/config_storage.cpp:39-43 | the defaults never change what any other key reads back |
| ConfigStore.KVStore.constructor | src/config_storage/config_storage.cpp:14-17 | the object holds the loaded store and the defaults |
| ConfigStore.KVStore.Reset | src/config_storage/config_storage.cpp:25-26 | the record becomes the empty record |
| ConfigStore.KVStore.LoadFromFlash | src/config_storage/config_storage.cpp:20-44 | the record is the checked sector record with the defaults seeded |
| ConfigStore.KVStore.LoadChecked | src/config_storage/config_storage.cpp:21-36 | the record is the checked sector record |
| ConfigStore.KVStore.CheckHeader | src/config_storage/config_storage.cpp:24-27 | the record is the header-checked record |
| ConfigStore.KVStore.CheckChecksum | src/config_storage/config_storage.cpp:29-36 | the record is the checksum-checked record |
| ConfigStore.KVStore.CopyFromFlash | src/config_storage/config_storage.cpp:21-22 | the record is the one parsed from the sector |
| ConfigStore.KVStore.ApplyDefaults | src/config_storage/config_storage.cpp:39-43 | the record and the dirty flag are those of seeding every default |
| ConfigStore.KVStore.ApplyDefault | src/config_storage/config_storage.cpp:40-42 | the record and the dirty flag are those of seeding one default |
| ConfigStore.KVStore.GetParam | src/config_storage/config_storage.cpp:82-89 | returns the value the record holds for the key |
| ConfigStore.KVStore.GetParamInto | src/config_storage/config_storage.cpp:92-101 | copies the specified bytes to the buffer front, leaves the rest, and reports whether the key was found |
| ConfigStore.KVStore.SetParam | src/config_storage/config_storage.cpp:118-145 | the record and the result are those of Set; the dirty flag records success |
| ConfigStore.KVStore.DeleteParam | src/config_storage/config_storage.cpp:152-164 | the record and the result are those of Delete; the dirty flag records success |
| ConfigStore.KVStore.ShiftLeft | src/config_storage/config_storage.cpp:155-157 | the slot array is shifted left over the deleted entry |
| ConfigStore.KVStore.CommitToFlash | src/config_storage/config_storage.cpp:47-61 | the state and the result are those of Commit |
| ConfigStore.KVStore.Seal | src/config_storage/config_storage.cpp:51-52 | the record becomes the sealed record |
| ConfigStore.KVStore.Program | src/config_storage/config_storage.cpp:54-55 | the sector holds the record's image followed by erased bytes |
| Protocol.CodesAreFourAsciiCharacters | src/server/command_config.hpp:9-23 | every command code is four ASCII characters and no two codes are equal |
| Protocol.DiscoveryUnsupported | src/server/command_config.hpp:26-29 | the discovery code is not a supported TCP command |
| Protocol.SupportedAreDefinedCodes | src/server/command_config.hpp:26-29 | the supported set is every defined code except discovery |
| Protocol.SupportedCount | src/server/command_config.hpp:26-29 | fourteen commands are supported |
| Protocol.CommandClasses | src/server/server.cpp:291-347 | the supported commands split into immediate, key-value and frame commands, with no overlap |
| Protocol.CodeCase | src/server/command_config.hpp:9-23 | only the reset and bootloader codes are upper case; comparisons are case-sensitive |
| Protocol.HeaderGeometry | src/server/server.hpp:13-15 | the prefix is 11 ASCII bytes and the header 19 bytes |
| Protocol.EncodeHeader | src/server/server.hpp:13-15 | a client's header is 19 bytes |
| Protocol.DecodeHeader | src/server/server.cpp:268-282 | a header is read exactly when its first 11 bytes are the prefix, and its command is 4 characters |
| Protocol.HeaderRoundTrip | src/server/server.cpp:268-282 | the server reads back the size and command a client encoded, whatever follows |
| Protocol.DecodeHeaderPrefix | src/server/server.cpp:264-282 | only the first 19 buffered bytes decide what the header says |
| Protocol.HeaderDecodeRoundTrip | src/server/server.cpp:268-282 | every accepted header with an ASCII command is the encoding of what was read from it |
| Reassembly.Immediate | src/server/server.cpp:306-347 | the immediate commands leave the decoder and the frame alone; only stor touches the store, by a commit |
| Reassembly.HeaderProcessed | src/server/server.cpp:261-266 | fewer than 19 header bytes are only accumulated; a true result starts a key-value or frame payload with the header bytes cleared |
| Reassembly.BadPrefixDropsHeader | src/server/server.cpp:269-275 | a completed header whose first 11 bytes are not the prefix clears the header bytes, changes nothing else and returns false |
| Reassembly.CommandRead | src/server/server.cpp:282-349 | an unsupported command changes nothing and returns false; a true result starts a payload |
| Reassembly.KeyValueProcessed | src/server/server.cpp:413-444 | a payload without ':' and a kget leave the store unchanged; the decoder and the frame are untouched |
| Reassembly.Overwrite | src/server/server.cpp:362-363 | the memcpy writes the payload over the front of the frame, cut at its end, and keeps the rest |
| Reassembly.Finished | src/server/server.cpp:403-410 | sdat and szip show the frame, data and zipd do not; the buffer is emptied |
| Reassembly.DataProcessed | src/server/server.cpp:352-411 | the store is untouched; an empty buffer changes nothing; the buffer is either kept or emptied |
| Reassembly.Disconnected | src/server/server.cpp:446-452 | reset_recv_state restores the start-up state but keeps the reassembly buffer |
| Reassembly.Appended | src/server/server.cpp:226-258 | ERR_MEM exactly when the chunk would pass the 65 KiB ceiling, and then the buffer is emptied; a start past the end is undefined and changes nothing |
| Reassembly.Dispatched | src/server/server.cpp:238-258 | a complete payload is dispatched and the world stays well-formed |
| Reassembly.KeyValueCompletes | src/server/server.cpp:239-246 | the chunk completing a key-value payload sends the whole buffer to process_key_value_command, ends the transfer and empties the buffer |
| Reassembly.Received | src/server/server.cpp:203-259 | a closed connection resets the decoder but keeps the buffer and returns ERR_OK |
| Reassembly.Feed | src/server/server.cpp:203-259 | the chunks of a connection, in order, keep the world well-formed |
| Reassembly.UnknownCommandKeepsHeader | src/server/server.cpp:285-288 | an unsupported command is read, nothing else changes and its header bytes stay buffered |
| Reassembly.StuckStaysStuck | src/server/server.cpp:262-288 | after an unknown command every later chunk is only appended to the header buffer |
| Reassembly.FramedChunk | src/server/server.cpp:268-282 | the first 19 bytes of a framed chunk decode to its size and command and the rest is the body |
| Reassembly.HeaderStarts | src/server/server.cpp:290-304 | a header naming a key-value or frame command starts that payload with nothing received |
| Reassembly.HeaderStartsPayload | src/server/server.cpp:261-304 | a chunk starting with such a header, on an idle decoder, starts the payload |
| Reassembly.KeyValueFrameInOneChunk | src/server/server.cpp:239-246 | a whole key-value frame in one chunk is processed at once and the decoder waits for a header again |
| Reassembly.KeyValueBody | src/server/server.cpp:425-432 | a key-value payload is the key, one ':' and the value |
| Reassembly.KeyValueSplit | src/server/server.cpp:425-432 | a payload splits back into its key and value when the key holds no ':' |
| Reassembly.KeySetOverTcp | src/server/server.cpp:437-439 | kset of a key that fits and has room reads back as the value, marks the store dirty and prints the set message |
| Reassembly.KeyGetOverTcp | src/server/server.cpp:434-436 | kget prints the key with the value it reads back and changes nothing |
| Reassembly.KeyDeleteOverTcp | src/server/server.cpp:440-442 | kdel leaves the key unreadable in a table without repeated keys |
| Reassembly.MalformedKeyValue | src/server/server.cpp:425-429 | a key-value payload without ':' only prints the malformed-command message |
| Reassembly.FrameCompletes | src/server/server.cpp:253-256 | the chunk completing a frame payload has it processed and ends the transfer |
| Reassembly.FrameInOneChunk | src/server/server.cpp:253-256 | a whole frame in one chunk is processed at once and the transfer ends |
| Reassembly.DataFrameInOneChunk | src/server/server.cpp:360-363 | an uncompressed frame lands at the front of the frame buffer, the rest stays; sdat also shows it |
| Reassembly.OverwriteFront | src/server/server.cpp:362-363 | the payload occupies the front of the frame and the rest is unchanged |
| Reassembly.ZlibFailureKeepsPayload | src/server/server.cpp:367-373 | a failed inflate keeps the payload buffered and shows nothing |
| Reassembly.LeftoverPrefixesPayload | src/server/server.cpp:234 | bytes left in the buffer stay in front of the next frame's payload |
| Reassembly.SplitHeaderDropsPayload | src/server/server.cpp:223 | a header split over two chunks still skips 19 bytes of the second, so payload bytes are lost |
| Reassembly.SplitHeaderShortChunk | src/server/server.cpp:227-231 | a header completed by a short chunk makes the length wrap and the chunk is refused with ERR_MEM |
| Reassembly.SplitHeaderUndefined | src/server/server.cpp:234 | the same short chunk with leftover bytes reaches the insert with its start past its end |
| Reassembly.PayloadAccumulates | src/server/server.cpp:233-234 | while a payload is incomplete, chunks are only appended to the buffer in order |
| Reassembly.DataFrameCompletes | src/server/server.cpp:360-363 | the chunk completing an uncompressed payload copies it all to the frame and ends the transfer |
| Server.SafeStoi | src/server/server.cpp:33-41 | the result is the default or the decimal value of an all-digit string; with a default in range it is always in range |
| Server.SafeStoiReadsDecimal | src/server/server.cpp:33-41 | a number written in decimal and within range is read back |
| Server.SafeStoiOutOfRange | src/server/server.cpp:40 | a number out of range gives the default |
| Server.SafeStoiRejectsNonDigit | src/server/server.cpp:36-38 | any non-digit byte gives the default |
| Server.Rotation | src/server/server.cpp:45-52 | the rotation is always 0, 90, 180 or 270 |
| Server.RotationChecksAngle | src/server/server.cpp:49-52 | an angle other than a quarter turn becomes 0, a quarter turn is kept |
| Server.RotationReadsQuarterTurn | src/server/server.cpp:45-52 | a stored quarter turn is the rotation used |
| Server.RotationRejectsOtherAngles | src/server/server.cpp:45-52 | any other stored number gives rotation 0 |
| Server.SettingsOf | src/server/server.cpp:28-53 | every number the constructor reads fits its uint16_t field; brightness is at most 255 and the rotation a quarter turn |
| Server.StoredPortIsUsed | src/server/server.cpp:43 | a port stored as decimal text is the port used |
| Server.MissingPortDefaults | src/server/server.cpp:43 | a missing port gives 54321 |
| Server.Number | src/server/server.cpp:508-514 | std::to_string writes a non-empty run of digits |
| Server.NumberInjective | src/server/server.cpp:508-514 | different numbers are written differently |
| Server.NumberThenComma | src/server/server.cpp:508-513 | a number in the reply is read back up to the comma after it |
| Server.DiscoveryReplyFields | src/server/server.cpp:508-514 | the discovery reply determines the rotation and the order, and for one address the port and the build |
| Server.DiscoveryReplyInjective | src/server/server.cpp:508-514 | for addresses without a double quote the reply determines every field |
| Server.RecvState.constructor | src/server/server.cpp:15-24 | the decoder state starts idle |
| Server.ApiServer.ValidSnapshot | src/server/server.cpp:15-24 | a valid server's state is a well-formed world |
| Server.ApiServer.constructor | src/server/server.cpp:26-53 | the server reads its settings from the store and has made no request yet |
| Server.ApiServer.Say | src/server/server.cpp:113 | a console message is appended and the settings are unchanged |
| Server.ApiServer.ConnectWifi | src/server/server.cpp:105-153 | the store, the console messages and the outcome are those of Connection |
| Server.ApiServer.Join | src/server/server.cpp:116-153 | after the radio is up, the store, the messages and the outcome are those of Joined |
| Server.ApiServer.Settle | src/server/server.cpp:139-152 | after the attempts, the store, the messages and the outcome are those of Settled |
| Server.ApiServer.OnMulticastReceive | src/server/server.cpp:488-534 | "sync" shows the frame; "dscv" prints, then sends and prints the JSON reply when a buffer is allocated; anything else does nothing |
| Server.ApiServer.OnReceive | src/server/server.cpp:203-259 | the new world and the status are those of Received |
| Server.ApiServer.Append | src/server/server.cpp:226-258 | the new world and the status are those of Appended |
| Server.ApiServer.Dispatch | src/server/server.cpp:238-258 | the new world is that of Dispatched |
| Server.ApiServer.ProcessHeader | src/server/server.cpp:261-350 | the new world and the result are those of HeaderProcessed |
| Server.ApiServer.ReadCommand | src/server/server.cpp:277-350 | the new world and the result are those of CommandRead |
| Server.ApiServer.RunImmediate | src/server/server.cpp:306-347 | the new world is that of Immediate |
| Server.ApiServer.ProcessKeyValueCommand | src/server/server.cpp:413-444 | the new world is that of KeyValueProcessed |
| Server.ApiServer.ProcessData | src/server/server.cpp:352-411 | the new world is that of DataProcessed |
| Server.ApiServer.CopyToFrame | src/server/server.cpp:362-363 | the frame buffer is the payload written over its front |
| Server.ApiServer.ResetRecvState | src/server/server.cpp:446-452 | the decoder state is that of Disconnected |
| Wifi.SkipSpace | src/server/server.cpp:117 | std::stoi skips a run of leading white space and stops at the first other byte |
| Wifi.DigitRun | src/server/server.cpp:117 | the run of leading digits is followed by a non-digit or the end |
| Wifi.Stoi | src/server/server.cpp:117 | a parsed value always fits an int |
| Wifi.Signed | src/server/server.cpp:117 | a signed value always fits an int |
| Wifi.DigitRunAll | src/server/server.cpp:117 | an all-digit string is one digit run |
| Wifi.StoiReadsDigits | src/server/server.cpp:117 | a plain digit string that fits reads as its decimal value |
| Wifi.StoiReadsDecimal | src/server/server.cpp:117 | what std::to_string wrote, std::stoi reads back |
| Wifi.ToU32 | src/server/server.cpp:117 | the conversion to uint32_t keeps every value in range |
| Wifi.AuthModesDistinct | src/server/server.cpp:119-124 | the four cyw43 modes 0x01000004, 0x01400004, 0x00400006 and 0x00400004 are distinct, so skipping the remembered one skips exactly one |
| Wifi.RoundFacts | src/server/server.cpp:136-139 | a round skips the remembered mode, repeats none and waits 2000·retry ms for each |
| Wifi.RoundsFacts | src/server/server.cpp:135-149 | the three rounds never use the remembered mode, repeat no attempt and have the expected size |
| Wifi.First | src/server/server.cpp:127-132 | a known remembered mode is tried once first with 5000 ms; an unknown one is not tried |
| Wifi.StoredTriedFirst | src/server/server.cpp:127-137 | the remembered mode is tried first and never again |
| Wifi.UnknownStoredSkipped | src/server/server.cpp:127 | an unknown remembered mode gets no attempt of its own |
| Wifi.ScheduleDistinct | src/server/server.cpp:119-149 | every attempt uses one of the four modes and no attempt repeats |
| Wifi.ScheduleLength | src/server/server.cpp:127-149 | ten attempts when the remembered mode is known, twelve otherwise |
| Wifi.FirstSuccess | src/server/server.cpp:129-146 | the index found associates and no earlier attempt did; none means no attempt associates |
| Wifi.FirstSuccessAt | src/server/server.cpp:129-146 | an attempt that associates after failures only is the first success |
| Wifi.RoundsPrefix | src/server/server.cpp:135 | fewer rounds are a prefix of more rounds |
| Wifi.RoundPrefix | src/server/server.cpp:136 | part of a round is a prefix of the whole round |
| Wifi.ScheduleSoFar | src/server/server.cpp:127-149 | every attempt made so far is the start of the schedule |
| Wifi.Associate | src/server/server.cpp:127-149 | the loops stop at the first attempt of the schedule that associates, or report none |
| Wifi.DoneStep | src/server/server.cpp:136-139 | the next mode of a round is the next attempt of the schedule, unless it is the remembered one |
| Wifi.DoneRound | src/server/server.cpp:135 | a finished round is where the next starts; after the last the schedule is used up |
| Wifi.Connection | src/server/server.cpp:105-153 | connect_wifi keeps the store well-formed and changes it only when it connects |
| Wifi.Joined | src/server/server.cpp:116-153 | after the radio is up the store changes only on a connection |
| Wifi.Settled | src/server/server.cpp:139-152 | the outcome is a connection exactly when an attempt associated; a success of the remembered mode leaves the store alone |
| Wifi.ConnectedIffSomeAttemptAssociates | src/server/server.cpp:105-153 | connect_wifi succeeds exactly when some attempt of the schedule associates |
| Wifi.WinnerRemembered | src/server/server.cpp:140-145 | a mode that succeeds in the rounds is stored and committed, and is tried first at the next start |
| Wifi.ModeStored | src/server/server.cpp:142-143 | a mode stored as decimal text and committed reads back |
| Wifi.CommitKeepsEntries | src/server/server.cpp:143 | a commit keeps what every key reads back |
| Wifi.DefaultModeIsKnown | src/main.cpp:150-156 | the default remembered mode 16777220 is WPA3 SAE, one of the four modes |
| Wifi.MixedModeTriedFirst | src/server/server.cpp:127-147 | a remembered "20971524", written after a WPA3/WPA2 success, is that mode: it gets the 5000 ms first attempt and ten attempts in all |
| Serial.Awaited | src/usb_handler/usb_handler.cpp:184-199 | waitFor succeeds exactly when the input starts with the expected bytes, and then consumes just them; the rest is always a suffix |
| Serial.AwaitedMismatch | src/usb_handler/usb_handler.cpp:196 | the wait ends at the first mismatch with that byte consumed |
| Serial.ScanBounds | src/usb_handler/usb_handler.cpp:226-244 | the field read is within its room and the input left is a suffix |
| Serial.ScanStep | src/usb_handler/usb_handler.cpp:234-243 | a byte written escaped by the host is read back as that byte |
| Serial.ScanRoundTrip | src/usb_handler/usb_handler.cpp:218-248 | a field that fits is read back exactly and its separator is consumed |
| Serial.ScanTruncates | src/usb_handler/usb_handler.cpp:226 | a field longer than the room is cut and the rest of it stays in the input |
| Serial.ScanTimesOut | src/usb_handler/usb_handler.cpp:226 | when the input ends before a separator, the field is what arrived |
| Serial.Advance | src/usb_handler/usb_handler.cpp:234-243 | one turn of the loop stores an escaped or ordinary byte, drops an escape and stops at a separator |
| Serial.SerialPort.constructor | src/usb_handler/usb_handler.cpp:31-34 | the port holds the bytes the host will send |
| Serial.SerialPort.WaitFor | src/usb_handler/usb_handler.cpp:184-199 | the result and the input left are those of Awaited |
| Serial.SerialPort.GetBytes | src/usb_handler/usb_handler.cpp:201-216 | reads min(len, available) bytes to the buffer front, zero-fills the rest of len and leaves the buffer beyond len alone |
| Serial.SerialPort.GetUntil | src/usb_handler/usb_handler.cpp:218-248 | stores the field and a terminator after it, returns its length (below max_len) and leaves the rest of the input |
| Usb.SetWith | src/usb_handler/usb_handler.cpp:93-107 | handleSet keeps the device well-formed |
| Usb.SetHandled | src/usb_handler/usb_handler.cpp:93-107 | handleSet with its 16- and 128-byte buffers keeps the device well-formed |
| Usb.GetHandled | src/usb_handler/usb_handler.cpp:109-117 | handleGet changes neither the store nor the frame |
| Usb.DeleteHandled | src/usb_handler/usb_handler.cpp:119-131 | handleDelete leaves the frame alone |
| Usb.DataHandled | src/usb_handler/usb_handler.cpp:149-153 | handleData leaves the store alone |
| Usb.ZippedHandled | src/usb_handler/usb_handler.cpp:155-182 | handleZippedData leaves the store alone |
| Usb.Unpacked | src/usb_handler/usb_handler.cpp:175-181 | uncompress changes neither the store nor the input |
| Usb.Processed | src/usb_handler/usb_handler.cpp:54-91 | processCommand keeps the device well-formed |
| Usb.Stepped | src/usb_handler/usb_handler.cpp:37-51 | one turn of the loop keeps the device well-formed |
| Usb.SetOverUsb | src/usb_handler/usb_handler.cpp:93-107 | a key and value that fit their buffers are stored and echoed, and the input after them is left |
| Usb.EmptyFieldSkipsSet | src/usb_handler/usb_handler.cpp:98-100 | an empty key or value field stores and prints nothing |
| Usb.FifteenByteKeyIgnored | src/usb_handler/usb_handler.cpp:97-99 | a 15-byte key fills the buffer before its separator, so the value is empty and nothing is stored |
| Usb.SixteenByteKeySplit | src/usb_handler/usb_handler.cpp:97-99 | a 16-byte key, which the store accepts, is stored as its first 15 bytes with the 16th as the value |
| Usb.SetWithRoomStoresEveryKey | src/usb_handler/usb_handler.cpp:93-107 | with buffers two bytes longer than the store's limits, every key and value the store accepts is stored |
| Usb.GetOverUsb | src/usb_handler/usb_handler.cpp:109-117 | a get prints the key and its stored value |
| Usb.DeleteOverUsb | src/usb_handler/usb_handler.cpp:119-131 | a delete removes the key and says whether it was there |
| Usb.DataFrame | src/usb_handler/usb_handler.cpp:149-153 | a whole frame is copied and shown; a short one is zero-filled and not shown |
| Usb.ZippedOversizeRefused | src/usb_handler/usb_handler.cpp:161-163 | a size above the frame size is refused after its four bytes |
| Usb.ZippedShownIffFullFrame | src/usb_handler/usb_handler.cpp:175-181 | the frame is shown exactly when zlib returns Z_OK with a full frame |
| Usb.StoreReportsCommit | src/usb_handler/usb_handler.cpp:71-76 | "stor" says the record was written exactly when the store was dirty, and commits it |
| Usb.CommandOverUsb | src/usb_handler/usb_handler.cpp:37-51 | a framed command is read and run, whatever follows |
| Usb.UsbHandler.constructor | src/usb_handler/usb_handler.cpp:31-34 | the handler holds the store, the port and the frame, and has printed nothing |
| Usb.UsbHandler.Say | src/usb_handler/usb_handler.cpp:104 | a console message is appended |
| Usb.UsbHandler.Step | src/usb_handler/usb_handler.cpp:37-51 | the new device is that of Stepped |
| Usb.UsbHandler.ProcessCommand | src/usb_handler/usb_handler.cpp:54-91 | the new device is that of Processed |
| Usb.UsbHandler.HandleSet | src/usb_handler/usb_handler.cpp:93-107 | the new device is that of SetHandled |
| Usb.UsbHandler.HandleGet | src/usb_handler/usb_handler.cpp:109-117 | the new device is that of GetHandled |
| Usb.UsbHandler.HandleDelete | src/usb_handler/usb_handler.cpp:119-131 | the new device is that of DeleteHandled |
| Usb.UsbHandler.HandleData | src/usb_handler/usb_handler.cpp:149-153 | the new device is that of DataHandled |
| Usb.UsbHandler.HandleZippedData | src/usb_handler/usb_handler.cpp:155-182 | the new device is that of ZippedHandled |
| Usb.UsbHandler.Uncompress | src/usb_handler/usb_handler.cpp:175-181 | the new device is that of Unpacked |
| Usb.UsbHandler.CopyToFrame | src/usb_handler/usb_handler.cpp:176 | the frame buffer is the inflated bytes written over its front |
| Usb.UsbHandler.HandleSystemCommand | src/usb_handler/usb_handler.cpp:133-147 | RSET prints "RST" and reboots; BOOT prints "USB" and enters the boot loader |
| MainLoop.DefaultsFit | src/main.cpp:150-156 | the defaults have distinct keys and each fits the store |
| MainLoop.DefaultsOnBlankSector | src/main.cpp:150-158 | on a sector that fails its checks every default reads back after the load |
| MainLoop.DefaultAuthIsWpa3 | src/main.cpp:154 | the default wifi_auth text parses to WPA3 SAE, one of the four modes |
| MainLoop.MainSet | src/main.cpp:189-207 | "set:" keeps the device well-formed and leaves the frame alone |
| MainLoop.MainDelete | src/main.cpp:217-227 | "del:" keeps the device well-formed and leaves the frame alone |
| MainLoop.MainZipped | src/main.cpp:255-307 | "zdat" leaves the store alone |
| MainLoop.MainProcessed | src/main.cpp:189-325 | one command keeps the device well-formed |
| MainLoop.MainStepped | src/main.cpp:177-326 | one turn of the loop keeps the device well-formed |
| MainLoop.SetReportsOutcome | src/main.cpp:191-199 | "set:" stores both fields and reports success with the value read back, or failure, exactly as setParam returned |
| MainLoop.SetWithoutKey | src/main.cpp:203-205 | an empty key writes nothing and prints "No valid data received" |
| MainLoop.MainStoreReportsCommit | src/main.cpp:239-246 | "stor" says "Config written to flash" exactly when commitToFlash returned true |
| MainLoop.UnknownCodeIgnored | src/main.cpp:189-325 | a code that matches no branch changes nothing |
| MainLoop.ZdatShownIffFullFrame | src/main.cpp:286-304 | the frame is shown exactly when zlib returns Z_OK with a full frame |
| MainLoop.CommandLoop.constructor | src/main.cpp:158-175 | the loop holds the store, the port and the frame, and has printed nothing |
| MainLoop.CommandLoop.Say | src/main.cpp:204 | a console message is appended |
| MainLoop.CommandLoop.Step | src/main.cpp:177-187 | the new device is that of MainStepped |
| MainLoop.CommandLoop.Dispatch | src/main.cpp:189-325 | the new device is that of MainProcessed |
| MainLoop.CommandLoop.Set | src/main.cpp:189-207 | the new device is that of MainSet |
| MainLoop.CommandLoop.Get | src/main.cpp:209-215 | the new device is that of the USB handler's get |
| MainLoop.CommandLoop.Delete | src/main.cpp:217-227 | the new device is that of MainDelete |
| MainLoop.CommandLoop.Data | src/main.cpp:248-253 | the new device is that of the USB handler's data |
| MainLoop.CommandLoop.Zipped | src/main.cpp:255-307 | the new device is that of MainZipped |
| MainLoop.CommandLoop.CopyToFrame | src/main.cpp:287 | the frame buffer is the inflated bytes written over its front |
| Display.ScrollGeometry | src/display/i75w/display.cpp:49-69 | with scroll_up's stride of three bytes a pixel, the bytes it copies into plus the distance it copies from make 49152 bytes, three quarters of the buffer |
| Display.PixelIndex | src/display/i75w/display.cpp:53-54 | the offset scroll_up computes for (x, y, k) is y·768 + x·3 + k, below 49152 |
| Display.ScrolledUp | src/display/i75w/display.cpp:49-69 | after scroll_up each byte below 43008 holds the old byte 6144 further on, bytes 43008 to 49151 are zero and the last quarter is as it was |
| Display.ScrollMovesPixels | src/display/i75w/display.cpp:51-59 | byte (y·256+x)·3+k for y < 56 takes the old byte ((y+8)·256+x)·3+k, the loop's own indices |
| Display.ScrollClearsLastLine | src/display/i75w/display.cpp:62-69 | bytes (y·256+x)·3+k for y from 56 to 63 are zero, the clearing loop's own indices |
| Display.PixelByte | src/display/i75w/display.hpp:8-10 | byte k of the 32-bit word of pixel (x, y) is y·1024 + x·4 + k, inside the buffer |
| Display.ScrollMovesSixRows | src/display/i75w/display.cpp:51-59 | as written, on the panel's 4-byte pixels, pixel (x, y) for y < 42 takes the old pixel (x, y + 6): six rows, not eight |
| Display.ScrollKeepsBottomLine | src/display/i75w/display.cpp:62-69 | as written, every pixel of panel rows 56 to 63 is left as it was, so the last text line is not cleared |
| Display.ScrollByLineMovesPixels | src/display/i75w/display.cpp:49-59 | corrected to four bytes a pixel, every pixel above the last text line takes the colour of the pixel eight rows below |
| Display.ScrollByLineClearsLastLine | src/display/i75w/display.cpp:61-69 | corrected to four bytes a pixel, every pixel of the last text line is black |
| Display.PixelOffsets | src/display/i75w/display.cpp:53-54 | the loops step three bytes a pixel, and each source offset is 6144 bytes past its target |
| Display.NextLine | src/display/i75w/display.cpp:84-92 | a new line puts the cursor at the start of a line and draws nothing |
| Display.PrintedCharOnScreen | src/display/i75w/display.cpp:80-98 | each character keeps the cursor on one of the eight text lines, keeps what was drawn and draws on screen |
| Display.PrintStaysOnScreen | src/display/i75w/display.cpp:74-100 | a whole print keeps the cursor on a text line and draws every character on screen |
| Display.NewLineAtBottomOverwrites | src/display/i75w/display.cpp:89-92 | as written, a new line from the last text line lifts the cursor to row 48, where scroll_up's 3-byte indexing has put the bytes of the old cursor line |
| Display.NewLineAtBottomOnPanel | src/display/i75w/display.cpp:49-92 | as written, on the panel's 4-byte pixels, the cursor lands on row 48, whose pixels are unchanged, and the line it left stays below it unchanged |
| Display.NewLineKeepsLineAbove | src/display/i75w/display.cpp:84-92 | with the cursor corrected, a new line leaves the bytes of the previous cursor line directly above the cursor, in scroll_up's 3-byte indexing |
| Display.IntendedNextLine | src/display/i75w/display.cpp:84-92 | the intended new line puts the cursor at the start of a line and draws nothing |
| Display.IntendedNewLineKeepsLineAbove | src/display/i75w/display.cpp:84-92 | intended, every panel pixel of the previous cursor line sits directly above the cursor, whether or not the panel scrolled |
| Display.IntendedNewLineAtBottomClears | src/display/i75w/display.cpp:49-92 | intended, a new line from the bottom keeps the cursor on the last line, and every panel pixel of that line is black |
| Display.NewLineAtBottomClears | src/display/i75w/display.cpp:89-92 | corrected, a new line from the bottom stays on the last line, which scroll_up has zeroed in its own indexing |
| Display.Display.constructor | src/display/i75w/display.cpp:10-19 | the cursor starts at the top-left corner of two distinct buffers |
| Display.Display.Update | src/display/i75w/display.cpp:43-47 | the frame buffer becomes a copy of the shadow buffer and that frame is shown |
| Display.Display.ScrollUp | src/display/i75w/display.cpp:49-72 | the shadow buffer becomes ScrolledUp of the old one and the cursor rises one text line |
| Display.Display.MoveUp | src/display/i75w/display.cpp:51-59 | each of the first 43008 bytes takes the byte 6144 further on, copied upwards in place |
| Display.Display.MoveRow | src/display/i75w/display.cpp:52-58 | the 768 bytes of row y take the bytes 6144 further on |
| Display.Display.MovePixel | src/display/i75w/display.cpp:55-57 | the three bytes at one offset take the three bytes 6144 further on |
| Display.Display.ClearLastLine | src/display/i75w/display.cpp:62-69 | bytes 43008 to 49151 are zeroed, completing ScrolledUp |
| Display.Display.ClearRow | src/display/i75w/display.cpp:63-68 | the 768 bytes of row y are zeroed |
| Display.Display.PrintChar | src/display/i75w/display.cpp:80-98 | the new panel is that of PrintedChar, as written |
| Display.Display.NewLine | src/display/i75w/display.cpp:84-92 | the new panel is that of NextLine, as written |
| Display.Display.Print | src/display/i75w/display.cpp:74-100 | the panel is that of Printed on the terminated text, and the result is shown |
| Matrix.Geometry | src/matrix/matrix.hpp:9-11 | the frame buffer is 65536 bytes and the panel holds eight text lines |
| Matrix.DropLine | src/matrix/matrix.cpp:98-102 | the pop loop leaves a suffix: what follows the first newline, or nothing when there is none |
| Matrix.DropLineNewlines | src/matrix/matrix.cpp:98-102 | popping up to the first newline removes exactly one newline |
| Matrix.ScrollRemovesOneLine | src/matrix/matrix.cpp:88-104 | scroll removes one line when eight or more newlines are buffered, and nothing otherwise |
| Matrix.PrintKeepsLineBound | src/matrix/matrix.cpp:138-164 | with characters narrower than half the panel, print never leaves more than eight newlines buffered |
| Matrix.PrintAppends | src/matrix/matrix.cpp:147-162 | below a full panel and without wrapping, print appends its text unchanged |
| Matrix.Console.constructor | src/matrix/matrix.cpp:19 | the text buffer starts empty |
| Matrix.Console.Scroll | src/matrix/matrix.cpp:88-104 | the buffer becomes Scrolled of the old one |
| Matrix.Console.Print | src/matrix/matrix.cpp:138-164 | the buffer becomes Pushed of the old one with the terminated text |
| Matrix.Console.Push | src/matrix/matrix.cpp:150-161 | one character: a newline when the line is full, a scroll, then the character |
| Matrix.Console.ClearScreen | src/matrix/matrix.cpp:133-136 | the text buffer is emptied |
| Matrix.LinesHaveNoNewline | src/matrix/matrix.cpp:118-128 | no line info draws contains a newline |
| Matrix.LinesRoundTrip | src/matrix/matrix.cpp:118-128 | the lines info draws, each followed by a newline, give back the text with a final newline added when missing |
| Matrix.InfoLines | src/matrix/matrix.cpp:111-131 | info draws exactly the lines of the text, line i at row 8 * i |
| Matrix.Normalized | src/matrix/matrix.cpp:43-47 | the trimmed setting is upper-case throughout |
| Matrix.FirstNonBlank | src/matrix/matrix.cpp:43 | find_first_not_of: the first non-blank at or after i, every character before it blank |
| Matrix.LastNonBlank | src/matrix/matrix.cpp:44 | find_last_not_of plus one: the end of the last non-blank before i, every character after it blank |
| Matrix.ColorOrderRoundTrip | src/matrix/matrix.cpp:28-60 | each colour order's own name selects it |
| Matrix.NormalizedIdempotent | src/matrix/matrix.cpp:43-47 | trimming and upper-casing twice is doing it once |
| Matrix.ColorOrderPadding | src/matrix/matrix.cpp:43-60 | spaces, tabs and line ends around an order's name do not change the order |
| Matrix.TrimPadding | src/matrix/matrix.cpp:43-44 | trimming removes exactly the blanks around a word |
| Matrix.ColorOrderCaseInsensitive | src/matrix/matrix.cpp:47-60 | the setting is matched without regard to letter case |
| Matrix.NormalizeColorOrder | src/matrix/matrix.cpp:43-47 | the scans and the transform give Normalized of the setting |
| Matrix.UpperInPlace | src/matrix/matrix.cpp:47 | std::transform with toupper gives Upper of the string |
| OldTcp.OldHeaderGeometry | src/tcp_server/tcp_server-old.cpp:177-194 | the header is the 11-byte prefix, a 4-byte size and a 4-byte command |
| OldTcp.Placed | src/tcp_server/tcp_server-old.cpp:254 | memcpy writes the data at the position and leaves every other byte |
| OldTcp.PlacedTwice | src/tcp_server/tcp_server-old.cpp:254-255 | two copies side by side are one copy of both |
| OldTcp.OldDisconnected | src/tcp_server/tcp_server-old.cpp:158-166 | a null pbuf resets every field of the receive state and keeps the frame |
| OldTcp.Announced | src/tcp_server/tcp_server-old.cpp:203-246 | the announcements after the header change neither the receive state nor the frame |
| OldTcp.HeaderRead | src/tcp_server/tcp_server-old.cpp:174-247 | the header step never changes the frame |
| OldTcp.Copied | src/tcp_server/tcp_server-old.cpp:250-268 | the data step keeps the copy position within the frame |
| OldTcp.OldReceived | src/tcp_server/tcp_server-old.cpp:155-271 | on_receive keeps the copy position within the frame |
| OldTcp.OldFeed | src/tcp_server/tcp_server-old.cpp:155-271 | a stream of chunks keeps the copy position within the frame |
| OldTcp.BadPrefixClears | src/tcp_server/tcp_server-old.cpp:185-189 | a header not starting with "Multiverse:" is dropped with one message |
| OldTcp.HeaderInPieces | src/tcp_server/tcp_server-old.cpp:174-196 | a header in two pieces is read once complete: the big-endian size and the command, with no payload expected for codes other than raw frames |
| OldTcp.DataHeaderRead | src/tcp_server/tcp_server-old.cpp:191-234 | a "data" header starts a raw transfer of the announced size |
| OldTcp.HeaderEntersFrame | src/tcp_server/tcp_server-old.cpp:233-267 | the chunk completing a header is copied to the front of the frame, header included; a short transfer is shown at once |
| OldTcp.ChunkAppended | src/tcp_server/tcp_server-old.cpp:250-256 | a chunk short of the expected size is copied right after the earlier ones |
| OldTcp.StreamAppended | src/tcp_server/tcp_server-old.cpp:250-256 | a stream short of the expected size is laid into the frame in order |
| OldTcp.OversizeNeverCompletes | src/tcp_server/tcp_server-old.cpp:251-258 | a transfer announced larger than the frame never completes |
| OldTcp.TransferCompletes | src/tcp_server/tcp_server-old.cpp:258-267 | reaching the expected size ends the transfer; "data" shows the frame and "datw" does not |
| OldTcp.Pieces | src/tcp_server/tcp_server-old.cpp:308-324 | every piece is non-empty and at most 1460 bytes |
| OldTcp.PiecesConcat | src/tcp_server/tcp_server-old.cpp:308-324 | the pieces put together are the data |
| OldTcp.PiecesCount | src/tcp_server/tcp_server-old.cpp:308-324 | there are ceil(size / 1460) pieces |
| OldTcp.PiecesStep | src/tcp_server/tcp_server-old.cpp:312-323 | one turn of the loop takes the first piece |
| OldTcp.MessageSize | src/tcp_server/tcp_server-old.cpp:297 | the expected size is 19 plus the file size, exactly or, as written, modulo 2^32 |
| OldTcp.MessageRoundTrip | src/tcp_server/tcp_server-old.cpp:282-332 | a whole message is taken: its data goes to the callback in pieces and exactly the message is removed |
| OldTcp.WaitsForWholeMessage | src/tcp_server/tcp_server-old.cpp:283-298 | until the whole message has arrived nothing changes |
| OldTcp.BadMessagePrefixClears | src/tcp_server/tcp_server-old.cpp:286-290 | a bad prefix empties the buffer and hands nothing over |
| OldTcp.MessageSizeWraps | src/tcp_server/tcp_server-old.cpp:297 | as written, a size of 0xFFFFFFFF wraps to 18: the bare header is taken and 18 of its 19 bytes removed |
| OldTcp.NoWrapAgrees | src/tcp_server/tcp_server-old.cpp:297 | below the wrap the 32-bit and exact sums behave alike |
| OldTcp.OldRecvState.constructor | src/tcp_server/tcp_server-old.cpp:145-153 | the receive state starts idle |
| OldTcp.TcpServer.constructor | src/tcp_server/tcp_server-old.cpp:15-16 | the server starts with empty buffers and nothing printed |
| OldTcp.TcpServer.Say | src/tcp_server/tcp_server-old.cpp:159 | a message is appended |
| OldTcp.TcpServer.OnReceive | src/tcp_server/tcp_server-old.cpp:155-271 | the new state is that of OldReceived |
| OldTcp.TcpServer.ReadHeader | src/tcp_server/tcp_server-old.cpp:174-247 | the new state is that of HeaderRead |
| OldTcp.TcpServer.Announce | src/tcp_server/tcp_server-old.cpp:203-246 | the new state is that of Announced |
| OldTcp.TcpServer.CopyChunk | src/tcp_server/tcp_server-old.cpp:250-268 | the new state is that of Copied |
| OldTcp.TcpServer.Finish | src/tcp_server/tcp_server-old.cpp:258-267 | the transfer ends; "data" shows the frame, "datw" only reports |
| OldTcp.TcpServer.CopyAt | src/tcp_server/tcp_server-old.cpp:254 | the frame becomes Placed of the old one |
| OldTcp.TcpServer.ProcessMessage | src/tcp_server/tcp_server-old.cpp:282-332 | the new buffer, pieces and messages are those of Taken, in 32-bit arithmetic |
| OldTcp.TcpServer.HandOver | src/tcp_server/tcp_server-old.cpp:308-324 | the callback is handed the Pieces of the payload, or nothing without a callback |

## Left out

- ConfigLayout.Serialize assumes the slot layout. The `.cpp` never fixes where `keyLength` and `valueLength` sit or how wide they are, so the model takes the key bytes, a 32-bit length, the value bytes and a 32-bit length, unpadded and little-endian.
- Server.ApiServer.OnReceive and OldTcp.TcpServer.OnReceive read each chunk as an intact byte string. In the source, `on_receive` takes `p->payload` and calls `pbuf_free(p)` before reading it (`server.cpp:213-215`, `tcp_server-old.cpp:169-171`). Every later read of the chunk is therefore a read of freed memory: `process_header` (`server.cpp:220`), the `insert` into `recv_buffer` (`server.cpp:234`), and the header `insert` and `memcpy` of the old server (`tcp_server-old.cpp:175`, `254`). The `ERR_MEM` at `server.cpp:230` also hands lwIP back a pbuf that has already been freed. The model assumes the bytes are still there. This undefined behaviour is not modelled.
- `DEBUG_PRINT` output is not modelled. Examples in `server.cpp` are "Invalid message prefix" (272), "Unknown command" (286), "Received command" (297), "Cleared display" (331), "Display synchronized" (335) and "Image received and updated" (405). Only `matrix::print` and `display::print` output appears as console events.
- Network I/O is not modelled:
  - lwIP, pbuf chaining (only the first pbuf of a chain is read), `tcp_recved`, `tcp_close`, the IGMP join, and UDP sends (a failed send is only logged);
  - `run`, `start`, `stop` and `setup_multicast_listener` of the servers.
  - The addresses `ipv4addr`/`ipv6addr` report are a `Network` parameter.
- zlib `uncompress` is a parameter giving its status and output; whether `malloc` succeeds is a boolean parameter.
- Rendering is not modelled:
  - PicoGraphics, Hub75 and `measure_text` (a width function parameter);
  - in `display.cpp`, `graphics` draws on `buffer` while `update` copies `shadow_buffer` over it. The model records what is drawn as events and keeps the two buffers apart.
  - `init`, `clear` and `info` of `display.cpp`, and the DMA completion interrupts, are not modelled.
- Effects outside the firmware are terminal events only: `sleep_ms`, `watchdog_reboot`, `reset_usb_boot`, ROSC poking and interrupt masking.
- Timeouts are not modelled as time: TinyUSB `tud_task`/`cdc_task` and the timeout state are replaced by the end of the input sequence. `MAX_UART_PACKET` is taken as 64; its value does not change what a read returns.
- The `while(1)` loops of `UsbHandler::start` and `main` are modelled one turn at a time (`Stepped`, `MainStepped`).
- Some source is not compiled code or is unreachable:
  - The `USB_DISCOVERY`, `PRINT` and `FACTORY_RESET` branches name constants that `command_config.hpp` does not define, so they are not modelled. `PRINT` is also outside the supported set.
  - `usb_serial_write` only feeds the discovery reply.
  - `cdc_get_data_uint16`/`cdc_get_data_uint8` in `main.cpp` are never called.
- `process_message`: the `command.size() != 4` branch cannot be taken, since the command is always cut from four bytes, so it is not modelled.
- The defaults are applied in list order. `std::unordered_map` gives no order, but the keys are distinct, so the resulting table entries do not depend on it beyond their slot order.
- A checksum-valid flash record whose slot length fields exceed the slot arrays is never written by this firmware. For such a record the source reads past the arrays. The model matches a key only when its length is at most 16, and clamps a value read to 128 bytes.
- `flash_range_program` is called with the 3964-byte record, which is not a multiple of the 256-byte flash page. The model programs exactly the record bytes and does not model what the SDK does with the remainder.
- The `std::stoi`/`atoi` overflow and exception paths are modelled only as far as `Wifi.Stoi` says: `None` stands for the exception.
- `expected_size` is computed from `int`-promoted shifts in the source. It is modelled as the unsigned big-endian value, which is what the 32-bit `size_t` receives.
- `src/tcp_server/tcp_server.cpp`, a thin lwIP wrapper, is not part of this model.
- `examples/matrix.py` writes the size as decimal digits and is not part of this model. The header encoder of `examples/send_zipped_image.py:61` appears only as the inverse in the header round trip.
- Usb.UsbHandler.HandleSet, Usb.SetHandled and MainLoop.CommandLoop.Set model the 16- and 128-byte buffers as written. The corrected buffer sizes are stated only through `Usb.SetWith`.
- Display.Display.ScrollUp models the 3-byte stride as written. The corrected 4-byte scroll is stated only through `Display.ScrolledUpByLine`.
- Display.Display.Print appends the newline to its text as intended. In the source, `text = std::string(text) + '\n'` at `display.cpp:78` leaves the `std::string_view` pointing at a temporary that is destroyed at the end of that statement, so when `append` is false the loop reads freed memory. That undefined behaviour is not modelled.
- Display.Display.Print and Display.Display.NewLine model the cursor and scroll_up as written. The corrected cursor alone is stated through `Display.NextLine` with `corrected` set. The intended new line, with the cursor fixed and the scroll at four bytes a pixel, is stated through `Display.IntendedNextLine`.
- OldTcp.TcpServer.ProcessMessage computes the expected size in 32 bits as written. The exact sum is stated only through `OldTcp.Taken` with `wrapped` unset.

## Findings

| source | as written | input that shows it | evidently intended | confidence | as-written member | corrected member |
|---|---|---|---|---|---|---|
| src/display/i75w/display.cpp:89-92 | a new line on the last text line calls `scroll_up`, which already lifts `cursor_y` by 8, then lifts it by 8 again | printing any newline when the cursor is on the bottom line (y = 56) | the cursor stays on the freshly cleared bottom line, with the previous line directly above it | not executed | Display.NewLineAtBottomOverwrites, Display.NewLineAtBottomOnPanel | Display.IntendedNewLineKeepsLineAbove, Display.IntendedNewLineAtBottomClears |
| src/display/i75w/display.cpp:53-64 | `scroll_up` indexes the shadow buffer with three bytes a pixel, while the buffer holds a 32-bit word per pixel (`BUFFER_SIZE` is W·H·4) | any `scroll_up`: the top 42 rows take the rows six below them, rows 42 to 47 are zeroed and rows 48 to 63 are left as they were | every row moves up one text line (eight rows) and the last text line turns black | not executed | Display.ScrollMovesSixRows, Display.ScrollKeepsBottomLine | Display.ScrollByLineMovesPixels, Display.ScrollByLineClearsLastLine |
| src/tcp_server/tcp_server-old.cpp:297 | `19 + file_size` is computed in the 32-bit `size_t` and wraps | a buffer holding just the 19-byte header with size 0xFFFFFFFF: it is taken as a whole message of 18 bytes | wait for all 19 + size bytes, then remove exactly that message | not executed | OldTcp.MessageSizeWraps | OldTcp.MessageRoundTrip, OldTcp.WaitsForWholeMessage |
| src/usb_handler/usb_handler.cpp:97-99 | the key is read into a 16-byte buffer, of which `getUntil` fills at most 15 bytes | `multiverse:kset` followed by a 16-byte key, `:`, a value and `:`: the first 15 bytes become the key and the 16th the value | every key the store accepts (up to 16 bytes) is read whole, with buffers two bytes longer than the store's limits, since the loop stops before reading the separator once it has stored max_len - 1 bytes | not executed | Usb.FifteenByteKeyIgnored, Usb.SixteenByteKeySplit | Usb.SetWithRoomStoresEveryKey |
