# Verification of the flasher's byte formats and protocols

This project models the parts of the `flasher` repository that have real state and real byte
arithmetic, and proves what they promise:

* **NVS images** (`nvs/nvs.go`). `NvsFormat` is a reader written from `nvs/FORMAT.md` alone: it takes
  pages in sequence order, walks slots by span until an EMPTY pair, and checks every checksum.
  `NvsImage` and `NvsPartition` describe the builder's pages and calls as functions on values,
  `NvsReadBack` proves that the reader gets the builder's whole log out of an image, `NvsRuns` exactly
  for which runs that is what the successful calls set: those in which every one of them got a
  namespace index that is not 0 and was last given its own name, the one-byte counter permitting
  (`ReadBackExactly`). At most 255 indices asked for is enough (`ReadBackWithin255`). `NvsEffects`
  proves that no run changes a written slot and that failed calls and renderings leave no trace
  they should not. `NvsExample` takes the worked example of the format document byte for byte,
  checksums included. `NvsBuilder` holds the two classes, with their
  4096-byte buffers filled in place, each method proved to do what the functions say. `Crc32`
  defines CRC-32 bit by bit (section 8 of RFC 1952) and proves that it notices any one changed byte.
* **The link** (`esp/slip.go`, `esp/loader.go`, `esp/protocol.go`). `Slip` gives the exact language the
  streaming decoder accepts (the "PROTOCOL" section of RFC 1055, with a leading delimiter), and
  resynchronisation. `Link` is a byte channel with arbitrary scripts of what reads and writes will
  bring. `Protocol` and `Loader` prove request and response round trips through noise, foreign
  frames and partial writes.
* **Flashing** (`esp/flash.go`). `FlashDevice` is a chip with NOR flash (erase to 0xFF, program by AND)
  behind a link that loses requests or answers or repeats stale ones. `FlashLink` proves that these
  exchanges are what `command` does on the wire. `FlashHost` is the host: its `Flasher` sends every
  request through `Loader.Command`, flushes the input between attempts, and is proved against
  functions on the chip's state. `FlashRuns` and `FlashStream` prove what raw and compressed writes
  leave on the chip after every verdict, `FlashSuccess` exactly when they succeed, `FlashImages`
  the digest check and whole runs.
* **Reading and RAM upload** (`esp/ops.go`, `esp/stub.go`). `ReadFlash` has the host loop and the
  two-party state machine; `Stub` the block splitting in 32-bit arithmetic and the mode switch.
* **Partition tables** (`partition/table.go`). `PartitionTable` characterises exactly which images
  parse, and to what.

Scripts stand for everything the host cannot know: a theorem for every script of read outcomes,
write outcomes or fates is a theorem for every behaviour of the channel. `ticks` stands for the
clock: how often `command` finds its deadline not yet passed. MD5 and zlib are parameters
(`World`); where a law about them is needed it is an explicit hypothesis (`LawfulMd5`: 16 bytes;
`LawfulZlib`: inflating undoes deflating, and more input never takes output back).

Assumptions about the chip, taken from comments in the source: BEGIN erases the sectors its region
touches; FLASH_DATA addresses a block by its number (`esp/flash.go:145-146`); the deflate stream is
stateful (`esp/flash.go:173-175`); a read is paced by acknowledged byte totals (`esp/ops.go:38-40`).
A flashing run starts with an empty input and with host and chip in the same mode.

## Where the code and its documents differ

* `nvs/FORMAT.md:93` says three used entries make the first bitmap byte 0xAA; two bits a slot make it
  0xEA, and 0xAA after four. The code, and so the model (`NvsImage.BitmapByte`), has the latter; the
  worked example there indeed uses four slots.
* `esp/ops.go:38` says a read verifies the chip's digest. The code accepts the data when the digest
  frame is missing, broken or not 16 bytes long (`esp/ops.go:70`); `ReadFlash.ReadsRegion` says exactly
  when it is refused.
* `esp/stub.go:34` says that on any failure the loader stays in ROM mode. The host does, but the chip
  may already run the stub: `Stub.GreetingSeenExactly` says where among the arriving frames its
  greeting has to stand to be noticed, `Stub.GreetingCanBeSwallowed` gives bytes for which it is not.
* A namespace name too long for a namespace entry still uses up an index (`nvs/nvs.go:109`), so 255
  failed calls are enough to make the next successful one lose its setting:
  `NvsRuns.CounterWrapLosesSetting`.

## Model

| member | source | states |
|---|---|---|
| Crc32.FoldDetects | nvs/nvs.go:39 | two inputs of the CRC register that differ in exactly one byte leave different registers, from any start |
| Crc32.CrcDetects | nvs/nvs.go:39 | the stored four checksum bytes differ whenever exactly one covered byte differs |
| Crc32.CrcStored | nvs/nvs.go:132 | the four bytes stored are the checksum, least significant first |
| Crc32.CrcOfHi | nvs/FORMAT.md:34 | the checksum of "hi" and its NUL, seeded with 0xFFFFFFFF, as a number and as stored: 89 B5 04 0D |
| Bytes.CopyInto | nvs/nvs.go:60 | copying into a buffer replaces exactly the bytes from the given offset on |
| NvsFormat.HeadDetects | nvs/nvs.go:128-133 | a valid head entry with any one byte changed, covered or in the checksum field, is no longer valid |
| NvsFormat.HeaderDetects | nvs/nvs.go:66-72 | the same for the page header, state bytes excepted |
| NvsFormat.ResolveAppend | nvs/FORMAT.md:151-157 | resolving entries in two parts is resolving them in one, with the names of the first part carried over |
| NvsImage.IntReadBack | nvs/nvs.go:151-153 | the bytes kept of the widened 64-bit value decode to the original integer, signed or not, at every width |
| NvsImage.DataSlotIsChunk | nvs/nvs.go:183-191 | data slot i is the i-th 32 bytes of the payload, 0xFF-padded |
| NvsImage.PayloadReadBack | nvs/nvs.go:177-191 | the size and checksum fields of a string or blob find exactly its payload in the data slots |
| NvsImage.HeadFields | nvs/nvs.go:140-154 | every field of a head entry stands where the format puts it, and its checksum is valid |
| NvsImage.HeadInNumbers | nvs/nvs.go:140-181 | chunk byte 0xFF, type bytes 0x21 and 0x41, both checksums as little-endian words over exactly their bytes, reserved bytes 0xFF |
| NvsImage.ItemReadBack | nvs/nvs.go:118-193 | head and data slots of one item decode to its index, its key up to the first NUL, and its value |
| NvsImage.LayoutSlots | nvs/nvs.go:58-60 | the slots written stand one after the other from byte 64 on, all later ones are erased |
| NvsImage.LayoutPair | nvs/nvs.go:61-62 | state pair i is WRITTEN exactly when slot i is in use, else EMPTY |
| NvsImage.AppendLayout | nvs/nvs.go:58-64 | one write changes its own 32 bytes and clears one bitmap bit, and nothing else in the page |
| NvsImage.FinalizedHeader | nvs/nvs.go:66-72 | a finalized page is one the reader accepts, with its state and sequence number |
| NvsPartition.New | nvs/nvs.go:83-88 | a size is accepted exactly when it is a multiple of 4096 and at least 0x3000; then there is one empty page, no namespace, and the counter is 0 |
| NvsPartition.Fit | nvs/nvs.go:93-103 | refused exactly for more than 126 slots; else the last page has the room asked for, nothing changes if it had it before, and one empty page is added if not |
| NvsPartition.WriteOutcome | nvs/nvs.go:135-193 | which error, by 126 slots and 15 key bytes, whether a page is opened, and that the item's slots are the last ones written, or none |
| NvsPartition.RendersExactly | nvs/nvs.go:235-237 | an image is rendered exactly when the pages and one more fit; else nothing changes |
| NvsPartition.SlotsOfAppend | nvs/nvs.go:159-193 | slots of two item lists in a row are the slots of the joined list |
| NvsPartition.WriteLog | nvs/nvs.go:135-193 | a write adds its whole item at the end of the last page, or nothing; pages stay tiled by whole items |
| NvsPartition.NamespaceLog | nvs/nvs.go:105-116 | looking up a namespace adds a namespace entry exactly when the name is new and the entry could be written |
| NvsPartition.SetLog | nvs/nvs.go:195-230 | a setter adds a namespace entry if it made one and then its item if that went in, nothing else |
| NvsPartition.StepLog | nvs/nvs.go:195-251 | one call, rendering included, keeps every page tiled by whole items and adds to the log exactly what it left |
| NvsPartition.RunLog | nvs/nvs.go:195-251 | so does every run, whatever failed in it and however often it was rendered |
| NvsReadBack.PageReadBack | nvs/nvs.go:58-64 | walking a page by spans meets exactly its items, whatever their data slots look like |
| NvsReadBack.ImagePage | nvs/nvs.go:238-249 | page i of the image is page i finalized, every later page is erased |
| NvsReadBack.FinalizedPage | nvs/nvs.go:242-247 | page i carries number i; the last is ACTIVE, the ones before FULL |
| NvsReadBack.FoundAt | nvs/nvs.go:234-251 | searching the image by sequence number finds page s at place s, and nothing past the last |
| NvsReadBack.PagesReadBack | nvs/nvs.go:234-251 | reading pages in sequence order yields the logs of the pages in order |
| NvsReadBack.ImageReadBack | nvs/nvs.go:234-251 | the reader gets the settings of the whole log out of a rendered image |
| NvsRuns.SetReadBack | nvs/nvs.go:105-116 | a setter keeps the reader's names in step with the table exactly when its namespace does not clash, and then adds exactly what it owes |
| NvsRuns.CallKept | nvs/nvs.go:105-116 | a call adds to the reader's settings what it owes exactly when its index is not 0 and was last given its name; never more than one setting |
| NvsRuns.RunKept | nvs/nvs.go:105-230 | what a reader makes of a run's log is the settings of the successful calls exactly when every index was right when used |
| NvsRuns.ReadBackExactly | nvs/nvs.go:105-251 | for every run that renders: the image reads back as the settings of the successful calls, in order, if and only if each of them got an index that is not 0 and was last given its name |
| NvsRuns.NoClashKept | nvs/nvs.go:109-114 | runs in which no new namespace gets index 0 or an index of another name are among those |
| NvsRuns.ReadBack | nvs/nvs.go:195-251 | so the image of any run without such a clash reads back |
| NvsRuns.FewAttemptsNoClash | nvs/nvs.go:109-110 | at most 255 index allocations, failed ones included, never clash |
| NvsRuns.ReadBackWithin255 | nvs/nvs.go:105-251 | read-back under that count |
| NvsRuns.CounterWrapLosesSetting | nvs/nvs.go:109-111 | 255 failed calls and a good one: it succeeds, the image renders, the setting is gone |
| NvsExample.WorkedExample | nvs/FORMAT.md:172-209 | the two calls of the worked example render to its 12288 bytes: header, bitmap, entries, data slot and checksums as given, all else 0xFF |
| NvsEffects.SetExtends | nvs/nvs.go:195-230 | a setter, failed or not, changes no slot, appends only behind the last one, and opens at most two pages |
| NvsEffects.RunExtends | nvs/nvs.go:195-251 | the same over any run, renderings included: pages before the last never change again |
| NvsEffects.WrittenStays | nvs/nvs.go:58-64 | the bytes and the state pair of a written slot are the same after any run |
| NvsEffects.FailedPut | nvs/nvs.go:105-193 | a failed call writes no value; it may use up an index, make a namespace entry and open pages, and shows no setting |
| NvsEffects.PutFailsWhen | nvs/nvs.go:93-121 | the verdict of every call: a new name over 15 bytes, else an item over 126 slots, else a key over 15 bytes, else success |
| NvsEffects.NoNarrowing | nvs/nvs.go:160-177 | the span and the length of an accepted item survive the conversions to a byte and to 16 bits |
| NvsEffects.AlikeRender | nvs/nvs.go:234-251 | partitions that differ only in page headers render to the same image |
| NvsEffects.RenderingIsInvisible | nvs/nvs.go:234-251 | renderings anywhere in a run change neither later images nor any verdict |
| NvsEffects.ImageShape | nvs/nvs.go:234-251 | an image has the partition's size; data pages carry their number, 0xFFFFFFFE if last and 0xFFFFFFFC if not, version 0xFE and their checksum; at least one page behind them is erased |
| NvsBuilder.Page.constructor | nvs/nvs.go:47-53 | a new page is all 0xFF |
| NvsBuilder.Page.WriteEntry | nvs/nvs.go:58-64 | writing in place appends the slot and leaves the buffer laid out for it |
| NvsBuilder.Page.Finalize | nvs/nvs.go:66-72 | the stores into the header leave the page as finalized |
| NvsBuilder.NewPartition | nvs/nvs.go:83-88 | a partition or an error, by the size rules |
| NvsBuilder.Partition.Fit | nvs/nvs.go:93-103 | the page returned is the last one and has room; the state is as `NvsPartition.Fit` says |
| NvsBuilder.Partition.WritePrimitive | nvs/nvs.go:135-157 | verdict and new state of an integer write |
| NvsBuilder.Partition.WriteVar | nvs/nvs.go:159-193 | verdict and new state of a string or blob write |
| NvsBuilder.Partition.WriteData | nvs/nvs.go:183-191 | the data slots follow in order |
| NvsBuilder.PrimitiveEntry | nvs/nvs.go:140-154 | the entry filled in field by field is the head entry of the value |
| NvsBuilder.VarEntry | nvs/nvs.go:166-180 | the same for strings and blobs |
| NvsBuilder.PutKey | nvs/nvs.go:118-126 | a key over 15 bytes is refused and nothing stored, else it is stored NUL-padded |
| NvsBuilder.SetEntryCrc | nvs/nvs.go:128-133 | bytes 4 to 7 become the checksum of all the others |
| NvsBuilder.Partition.Namespace | nvs/nvs.go:105-116 | index, verdict and new state of a namespace lookup |
| NvsBuilder.Partition.SetInt | nvs/nvs.go:195-211 | verdict and new state of the eight integer setters |
| NvsBuilder.Partition.SetString | nvs/nvs.go:214-220 | verdict and new state of a string setter |
| NvsBuilder.Partition.SetBlob | nvs/nvs.go:224-230 | verdict and new state of a blob setter |
| NvsBuilder.Partition.Bytes | nvs/nvs.go:234-251 | the image, the error, and the headers written into the pages |
| Link.Send | esp/loader.go:95-107 | success means all bytes went out, failure is one of the two write errors |
| Link.SendExactly | esp/loader.go:95-107 | all goes out exactly when no write fails or takes nothing before enough has been taken |
| Link.Transport.Read | esp/loader.go:37-47 | one byte, a timeout or an error |
| Slip.SlipEncode | esp/slip.go:14-28 | the loop builds the frame of the payload |
| Slip.FrameExactly | esp/loader.go:49-91 | a payload is returned exactly when END-free junk, one or more ENDs, its escaping and an END were consumed |
| Slip.FrameFailsExactly | esp/loader.go:49-91 | it fails with an error, leaving a rest, exactly when the input breaks off or has a false escape there |
| Slip.FrameErrors | esp/loader.go:49-91 | so the only errors are a timeout, a read fault or a byte no escape allows |
| Slip.FrameBytes | esp/slip.go:14-28 | the frame of a payload that needs both escapes, in bytes |
| Slip.PartIsNoFrame | esp/slip.go:14-28 | no proper beginning of a frame is read as a frame |
| Slip.FrameRoundTrip | esp/loader.go:49-91 | an encoded frame behind noise is read back and nothing after it is touched |
| Slip.FrameInjective | esp/slip.go:14-28 | no two payloads share a frame |
| Slip.Resynchronises | esp/loader.go:53-73 | starting anywhere inside one frame, the next frame is read whole |
| Slip.StreamRoundTrip | esp/loader.go:49-91 | k frames with noise between them are read by k reads, in order |
| Loader.Loader.ReadFrame | esp/loader.go:49-91 | the method reads exactly what the decoding function says, error cases included |
| Loader.Loader.WriteAll | esp/loader.go:95-107 | what went out is the whole frame on success, a prefix on failure |
| Loader.Loader.Command | esp/loader.go:110-130 | answer, bytes left unread and bytes sent of one command |
| Loader.AnsweredWasSent | esp/loader.go:110-130 | an answered command has sent exactly one whole frame, which a device reads as that request |
| Loader.UnsentExactly | esp/loader.go:110-113 | a command fails with a write error exactly when the writes break off; then the input is untouched and only the beginning of the frame is out |
| Protocol.Checksum | esp/protocol.go:40-46 | the XOR of the magic and all bytes |
| Protocol.ChecksumDetects | esp/protocol.go:40-46 | one changed byte changes the checksum |
| Protocol.XorCancels | esp/protocol.go:40-46 | a byte folded in twice leaves no trace |
| Protocol.ChecksumBytes | esp/protocol.go:35-46 | the checksum of nothing is 0xEF, of 01 02 04 it is 0xE8 |
| Protocol.EncodeCommand | esp/protocol.go:49-57 | the packet built in place |
| Protocol.RequestRoundTrip | esp/protocol.go:49-57 | a device reads the request back exactly when its length fits in 16 bits |
| Protocol.HearsWire | esp/protocol.go:49-57 | a device hears exactly the requests that were sent, one after the other |
| Protocol.ResponseRoundTrip | esp/protocol.go:66-105 | value, payload and status come back in both trailer modes, extra bytes ignored |
| Protocol.AwaitsFirstAnswer | esp/loader.go:115-128 | the frames before the first answer are dropped, that answer is judged, the rest left unread |
| Protocol.AnswerWasFirst | esp/loader.go:115-128 | conversely, a response returned or a refusal reported was the first answer in its time |
| Protocol.AwaitExactly | esp/loader.go:115-129 | every outcome of the response loop, on the bytes of frames: the clock runs out, a frame cannot be read, or the first frame that matches is judged by the byte in the trailer's place, 0xFF if the trailer is missing |
| Protocol.SuccessOnBytes | esp/protocol.go:66-94 | success takes direction 1, the opcode, a frame as long as announced, at least a trailer announced, and a zero status byte |
| Protocol.CommandRoundTrip | esp/loader.go:110-130 | a device's response behind noise and foreign frames reaches the caller with value, payload and status |
| Protocol.DataRequestParses | esp/flash.go:88-95 | a DATA request gives the device its block and its number |
| Protocol.Assembled | esp/stub.go:88-102 | numbered DATA requests taken in order put the blocks together |
| ReadFlash.ReadFlash | esp/ops.go:41-77 | result, bytes read and bytes sent of a whole read |
| ReadFlash.NeedsTheStub | esp/ops.go:42-44 | without the stub nothing is sent or read |
| ReadFlash.ReadIsAsked | esp/ops.go:45-68 | data returned means the chip was asked for that length from that offset with packets of 0x1000 and a window of 64, and the data is the frames that came, at least that long, each acknowledged |
| ReadFlash.LoopReads | esp/ops.go:54-68 | whatever the input, data returned is the frames read, exactly as many as it takes, each acknowledged with the total so far |
| ReadFlash.LoopBreaks | esp/ops.go:55-58 | a frame that cannot be read before enough has come ends the loop with its error |
| ReadFlash.AckHeard | esp/ops.go:60-64 | an acknowledgement is read as four bytes, the total's low 32 bits |
| ReadFlash.LoopCollects | esp/ops.go:54-68 | packets come out joined exactly when every acknowledgement goes out whole, over any script of partial writes; each is answered with the running total, nothing behind them touched |
| ReadFlash.ReadsRegion | esp/ops.go:53-77 | whatever stands behind the data, the region is refused exactly when the next frame has 16 bytes and is not its digest |
| ReadFlash.ReadsRegionAndDigest | esp/ops.go:69-76 | the same for a digest frame behind noise, with anything after it |
| ReadFlash.StepKeepsInv | esp/ops.go:38-68 | every step keeps acked <= received <= sent, a received prefix and rising acknowledgements |
| ReadFlash.NeverStuck | esp/ops.go:54-68 | with any window of at least one byte some step is possible before the end |
| ReadFlash.EveryRunDelivers | esp/ops.go:54-68 | every interleaving is at most three steps a byte long, and one that cannot go on has delivered the region |
| ReadFlash.LoopIsHostSteps | esp/ops.go:54-68 | for every complete run of the two parties, the loop over the packets sent in it returns the region and writes exactly the totals acknowledged in it |
| Stub.UploadIsWhole | esp/stub.go:77-94 | the blocks are the data exactly when its length is at most 2^32 - 0x1800 |
| Stub.BeginAnnounces | esp/stub.go:80-84 | MEM_BEGIN carries the length, the number of blocks that follow, their size and the address |
| Stub.UploadInNumbers | esp/stub.go:77-104 | an upload is MEM_BEGIN 0x05 with length, count, 0x1800 and address, then as many MEM_DATA 0x07 that put the data together |
| Stub.MemBlocksInNumbers | esp/stub.go:88-102 | every MEM_DATA request word by word, its block full but for the last |
| Stub.EndInNumbers | esp/stub.go:106-114 | MEM_END 0x06 carries 1 and 0 for no entry point, 0 and the entry point otherwise |
| Stub.DeviceGetsUpload | esp/stub.go:77-104 | the chip ends up with the data in RAM exactly under that bound |
| Stub.MemUpload | esp/stub.go:77-104 | the requests go out one after the other up to the first failure |
| Stub.RunStub | esp/stub.go:36-75 | the host switches to stub mode exactly on success and stays in ROM mode on every failure |
| Stub.StubIsUploaded | esp/stub.go:54-60 | in a start that succeeds the chip hears text to its address, then data to its address, then MEM_END unless the writes broke off inside it |
| Stub.GreetingFound | esp/stub.go:64-74 | the greeting is seen exactly when it is one of the next three frames |
| Stub.GreetingSeenExactly | esp/stub.go:60-74 | of the frames that arrive, MEM_END's wait takes those up to the first that answers it; the host switches exactly when one of the next three is the greeting |
| Stub.GreetingAndResponse | esp/stub.go:106-115 | in front of the MEM_END response the greeting is swallowed, behind it it is seen |
| Stub.GreetingCanBeSwallowed | esp/stub.go:106-115 | two inputs: a greeting during the MEM_END wait is lost, the same greeting after it ran dry is seen |
| FlashDevice.ProgramStores | esp/flash.go:145-146 | programming blank flash stores the block, programming it again changes nothing |
| FlashDevice.LowerHex | esp/flash.go:108-111 | hex digits in either case are the same digest |
| FlashHost.Padded | esp/flash.go:129-137 | the data is kept in front, the length is whole blocks, less than one block is added |
| FlashHost.ChunksJoin | esp/flash.go:142-144 | the blocks joined are the data |
| FlashHost.ChunkAt | esp/flash.go:197-203 | where chunk i starts and ends, and what the ones before it join to |
| FlashHost.WholeBlocks | esp/flash.go:69-71 | rounding up a whole number of blocks does not wrap and loses nothing |
| FlashHost.Flasher.Command | esp/loader.go:110-130 | a request sent through the loader's own `command` has the answer of the abstract exchange, and what the chip saw is what it hears in the bytes sent |
| FlashHost.Flasher.WriteFlashRaw | esp/flash.go:128-171 | verdict and final state of a raw write on the wire, retries and input flushes included |
| FlashHost.Flasher.WriteFlashCompressed | esp/flash.go:176-224 | verdict and final state of a compressed write on the wire |
| FlashHost.Flasher.FlashMd5 | esp/flash.go:97-115 | verdict of the digest check for both answer forms and a short one |
| FlashHost.Flasher.WriteAll | cmd/flasher/main.go:322-334 | images are written in order up to the first failure |
| FlashRuns.BlockStores | esp/flash.go:145-149 | block i is stored whether it arrives first or again |
| FlashRuns.RetryIsIdempotent | esp/flash.go:148-154 | an answered request is carried out, an unanswered one is or is not, and retries add nothing |
| FlashRuns.BlocksStored | esp/flash.go:143-157 | all blocks stored, or all before the failing one |
| FlashRuns.BeginErases | esp/flash.go:69-86 | an answered BEGIN erased the region's sectors and nothing else |
| FlashRuns.BeginAnnouncesBlocks | esp/flash.go:69-82 | the block count announced is the number of DATA requests |
| FlashRuns.RawBeginInNumbers | esp/flash.go:69-86 | FLASH_BEGIN 0x02 word by word: size, block size 0x400 or 0x4000 by mode, offset, and the zero fifth word only in ROM mode |
| FlashRuns.StreamBeginInNumbers | esp/flash.go:190-196 | FLASH_DEFL_BEGIN 0x10 word by word: size after inflating, the number of chunks that follow, block size, offset |
| FlashRuns.DigestInNumbers | esp/flash.go:97-102 | SPI_FLASH_MD5 0x13 carries offset, size and eight zero bytes |
| FlashRuns.RawBlocksInNumbers | esp/flash.go:88-95 | FLASH_DATA 0x03: length, number, eight zero bytes, block k, its checksum |
| FlashRuns.StreamBlocksInNumbers | esp/flash.go:197-208 | FLASH_DEFL_DATA 0x11: the same for chunk k |
| FlashRuns.RawWrite | esp/flash.go:128-171 | on success the region is the padded data and all else as erased or before; after a failing block all before it are stored and it is or is not; after a digest error all are |
| FlashStream.RequestsSeen | esp/flash.go:143-157 | the chip sees the requests in order, each once to as often as allowed |
| FlashStream.BlocksOneToThreeTimes | esp/flash.go:143-157 | the raw blocks each arrive one to three times, in order |
| FlashStream.ChunksExactlyOnce | esp/flash.go:197-214 | chunks are non-empty, numbered, join to the stream, and each arrives exactly once |
| FlashStream.StreamBlocksRun | esp/flash.go:173-214 | on success exactly the data is written; after an error at chunk k the chip has consumed exactly the first k or k + 1 chunks and written what they inflate to |
| FlashStream.StreamWrite | esp/flash.go:176-224 | the same for the write with its digest check, after whose errors all the data is written |
| FlashSuccess.RetrySucceeds | esp/flash.go:148-154 | three attempts are enough exactly when one of the next three exchanges is delivered, and leave the chip as one does |
| FlashSuccess.SendSucceeds | esp/flash.go:143-157 | a list of requests is answered exactly when each gets through within its own exchanges |
| FlashSuccess.WriteSucceedsExactly | esp/flash.go:121-224 | a write succeeds, in either mode, if and only if it fits, BEGIN and digest are delivered, and every block gets through in its turn, a raw one within 3 exchanges, a chunk in 1 |
| FlashSuccess.WriteFailsExactly | esp/flash.go:148-157 | it fails at BEGIN exactly when that is not delivered or does not fit, and at block k exactly when the ones before get through and then 3 exchanges in a row are not delivered, or the one of a chunk |
| FlashSuccess.WriteSucceeds | esp/flash.go:121-224 | so a write within the flash succeeds over a link that works |
| FlashImages.DigestDecides | esp/flash.go:97-115 | if the digest exchange is delivered, the host is satisfied exactly when the digests agree |
| FlashImages.SuccessMeansDigest | esp/flash.go:162-170 | whatever happened to the blocks, stale answers included, success is exactly agreement of the digests |
| FlashImages.DigestAnswer | esp/flash.go:107-115 | what any answer to the digest command is worth: under 16 bytes an error, under 32 the digest itself, else hex digits in either case |
| FlashImages.OneWritten | esp/flash.go:121-224 | a write touches only its sectors, and success puts the content in place, in either mode |
| FlashImages.ImagesWritten | cmd/flasher/main.go:322-334 | a successful run over images in disjoint sectors leaves each one's data, and its padding, in place; outside their sectors nothing ever changes |
| FlashImages.ImagesInOrder | cmd/flasher/main.go:322-334 | two lists are written as their concatenation, the second begun only if the first succeeded |
| FlashImages.FailureIsLast | cmd/flasher/main.go:330-332 | after the image that failed nothing more reaches the chip |
| FlashLink.AskIsCommand | esp/loader.go:110-130 | for each fate of an exchange, with partial writes, noise and any remains of lost answers, `command` comes to the same answer, leaves nothing of an answer unread, and has sent the whole request |
| FlashHost.BlocksReachChip | esp/flash.go:88-95 | every DATA request fits the length field and is heard as it was meant |
| PartitionTable.ParseTable | partition/table.go:34-68 | the loop, with its jump past the limit, computes the parse |
| PartitionTable.ParsesExactly | partition/table.go:34-68 | a table parses to es exactly when it is at most 96 known records with those entries, properly ended |
| PartitionTable.RefusesTable | partition/table.go:53-62 | one unknown record within the limit is refused, with its offset, whatever follows |
| PartitionTable.NoEntriesExactly | partition/table.go:64-66 | a table is refused for having no entries exactly when it is otherwise good and has no data record |
| PartitionTable.NothingPastLimit | partition/table.go:36 | bytes at or past 0xC00 never matter |
| PartitionTable.NothingPastErased | partition/table.go:55-59 | bytes behind an erased record never matter |
| PartitionTable.TableRoundTrip | partition/table.go:34-68 | serialised entries, with checksum records anywhere, parse back to themselves in order |
| PartitionTable.FindEntry | partition/table.go:71-78 | the first entry of the name, or none |

## Left out

- esp/transport.go, esp/detect.go, esp/monitor.go: opening and finding the serial port, and the terminal; the channel is a script of outcomes.
- esp/macs.go, esp/security.go, esp/chip.go: deriving interface MAC addresses, decoding security flags, and the list of supported targets. They run on answers already received; no frame, image or flash content depends on them, except that the target selects the stub image.
- bundle/bundle.go, partition/flasherargs.go: packing builds into archives and loading them. The images and offsets they produce are the input of `FlashHost.WriteImages`; that they are sorted is not needed there.
- Connect, sync, ReadReg, BaseMAC, ChipID, SpiAttach, SpiSetParams, ChangeBaud, FlashFinish, EraseFlash, EraseRegion: single commands with fixed layouts; reset lines, sleeps and baud rates.
- Stub images: decoding their JSON and base64; `RunStub` takes the decoded sections.
- Timeouts: real time is replaced by scripts and by `ticks`; an error from setting the read timeout is not modelled.
- NvsBuilder.Partition.SetInt: one method stands for the eight one-line integer setters, its type argument choosing type byte, width and range.
- NvsRuns.ReadBackExactly: for partitions of at most 2^44 bytes, where the 32-bit page number does not wrap.
- ReadFlash.ReadFlash: the data that the code returns beside a digest mismatch is carried inside the error.
- Loader.Loader.Command: the response that the code returns beside a refusal is carried inside the error.
- FlashRuns.RawWrite: for padded data below 2^32 bytes, the range of the 32-bit size field; no stale answers are assumed there, while `FlashImages.SuccessMeansDigest` allows them.
- FlashLink.AskIsCommand: what arrives when an answer is lost may be anything that no command takes for success; an answer behind frames meant for other commands is covered by `Protocol.CommandRoundTrip` only.
- Zlib and MD5: parameters with their laws as hypotheses; that different data has different digests is nowhere assumed.
- Encrypted NVS, blob chunking across pages, CSV input: described in nvs/FORMAT.md, not in the code.
- Progress callbacks.
