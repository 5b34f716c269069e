# A verified model of the esphttpd web server

This project models the streaming parts of `libesphttpd`, the embedded web server of an ESP8266
firmware, with the two tools that build its images and the small HTTP client, and proves that each of
them agrees with a specification on whole inputs, however TCP or flash reads cut the data up.

| component | files |
|---|---|
| WebSocket frames: parser, writer, handshake | `WebSocketSpec`, `WebSocketFrames`, `WebSocket`, `WebSocketHandshake`, `HandshakeExample` |
| HTTP send path: chunks, backlog, disconnect | `HttpdSpec`, `HttpdRuns`, `HttpdChunks`, `HttpdResponse`, `HttpdClose`, `Httpd` |
| POST bodies, arguments | `HttpdPost`, `HttpdArgs` |
| HTTP client: numbers, chunked decoding | `Strtol`, `StrtolPrinted`, `ChunkedDecode`, `ChunkedPrinted`, `ChunkedRoundTrip` |
| Firmware upload and upgrade images | `NorFlash`, `FlashUploadSpec`, `FlashUploadRuns`, `FlashVerdict`, `FlashUpload`, `UpgradeImage` |
| Templates | `TemplateSpec`, `Template` |
| SHA-1, base64 | `Sha1Spec`, `Sha1`, `Base64Spec`, `Base64` |
| EspFS archives: writer and reader | `EspFsFormat`, `EspFsImage`, `EspFs`, `EspFsTermination`, `EspFsArchive` |
| DNS names | `DnsLabels`, `DnsNames`, `DnsTermination` |
| Octets, digits, options, loops that end soon or never | `Bytes`, `Digits`, `Wrappers`, `Loops` |

Most components come in three layers. A module of functions (`...Spec`, `...Image`) says what is
computed: either independently of the code (SHA-1 by FIPS 180-4, base64 by groups, a template rendered
as a whole file, the parts of a query line) or as the machine that takes one byte or one event at a
time. Lemmas relate that to what the code is for: frames to payloads, sends to a decoded body, an image
to the contents of the chip. What a caller relies on is stated with the numbers and characters
themselves, not with the constants of the code. Classes and methods have the fields and loops of the C code and are
verified to do what the functions say, on arrays that are changed in place.

An octet is a number from 0 to 255, since `char` is unsigned on the target; SHA-1 works on bit vectors.
Integer widths are written out where they matter: the 8-bit mask counter and 64-bit length of a
WebSocket frame, the 32-bit accumulators of base64 and `esp_strtol`, the 32-bit byte count of SHA-1,
the 16- and 32-bit signed fields of EspFS headers, 32-bit flash addresses.

Run `dafny verify dfyconfig.toml` to check everything.

Where the code differs from what one would expect of it, the model follows the code:

- A chunk is framed right only while its CR LF fits the send buffer (`HttpdChunks.FlushFramesIffRoom`, with an instance in `HttpdChunks.FullBufferBreaksFraming`); the terminating chunk is copied without a check (`HttpdChunks.NoRoomForTerminator`).
- A response is complete for the client only if every flush found the platform idle or room in the backlog (`HttpdResponse.ChunkedResponse`, with an instance in `HttpdResponse.CutOffResponse`).
- A reply to a close frame repeats the peer's status code only if the code came in the buffer that ended the header (`WebSocket.CloseReplyEchoes`).
- The upload bounds only the sum of the two firmware lengths, so one may be written past its slot (`FlashUploadRuns.SlotKept`, with an instance in `FlashUploadRuns.OverlongUploaded`).
- `espFsOpen` and `labelToStr` never return on some inputs (`EspFsTermination.EndsExactly`, `EspFsTermination.CircleForever`, `DnsTermination.EndsExactly`, `DnsTermination.StuckForever`), and `labelToStr` may write its NUL behind the buffer (`DnsTermination.NulOutside`).
- `labelToStr` returns the position behind the last pointer it follows, which is the one behind the name only for names with at most one pointer (`DnsNames.NameRead`, with an instance in `DnsNames.TwoPointers`).
- An unterminated token of a template is dropped, and the rest of its text with it.
- `httpdFindArg` stops at a part of the line that begins with a line end, and not at a line end inside a part.

## Model

| member | source | states |
|---|---|---|
| WebSocketFrames.AnySegmentation | libesphttpd/util/cgiwebsocket.c:171-272 | For every stream of acceptable masked frames and every way of cutting it into receive calls, `recvCb` gets exactly the clear payloads, frame by frame, with 2 for a frame whose low four bits are 2 and 1 for one whose top bit is clear; every ping is answered by 0x8A, its length and its payload; and the parser is ready for the next frame |
| WebSocket.ReceiveStream | libesphttpd/util/cgiwebsocket.c:171-272 | The same for the code itself, called on real buffers: the calls of `recvCb`, joined frame by frame, are the clear payloads with these flags, and the pongs are all that is sent |
| WebSocketFrames.SplitIrrelevant | libesphttpd/util/cgiwebsocket.c:171-272 | For any bytes at all, well formed or not, the parser's state, deliveries and output after several calls are those of one call on the concatenation |
| WebSocketFrames.StreamParsed | libesphttpd/util/cgiwebsocket.c:171-272 | A stream of acceptable frames in one call: deliveries and replies are those of the frames in order |
| WebSocketFrames.FrameParsed | libesphttpd/util/cgiwebsocket.c:171-272 | One frame of any length, with its payload masked as section 5.3 of RFC 6455 says: the clear payload is delivered with its flags exactly if the low four bits of the first octet are 0, 1 or 2, and sent back exactly if they are 9, although the mask counter is only eight bits wide |
| WebSocketFrames.HeaderParses | libesphttpd/util/cgiwebsocket.c:179-203 | Every header of section 5.2 of RFC 6455, in each of the three length forms, masked or not, takes the header states to ST_PAYLOAD with its flags, length and mask |
| WebSocketFrames.FrameHeadParses | libesphttpd/util/cgiwebsocket.c:89-109 | What `sendFrameHead` writes for an opcode and a length below 2^31 is read back by the header states as just these flags and this length, and is the shortest form |
| WebSocketFrames.BadFrameRejected | libesphttpd/util/cgiwebsocket.c:229-246 | A ping longer than 125 octets and an unmasked data frame close the connection with 1002 and deliver nothing, even when the frame has come only in part |
| WebSocketFrames.HeaderDecides | libesphttpd/util/cgiwebsocket.c:208-262 | The reaction to a frame is settled with the last octet of its header: 8 ends the connection with the close frame 0x88, 2 unless one was sent, and the frames that are refused are named |
| WebSocketSpec.RunSplit | libesphttpd/util/cgiwebsocket.c:176-272 | The octet-by-octet parser does not care where its input is cut |
| WebSocketSpec.WrapIsHarmless | libesphttpd/util/cgiwebsocket.c:80-80 | Wrapping the counter at 256 does not change its value modulo 4 |
| WebSocketSpec.RunOctets | libesphttpd/util/cgiwebsocket.c:219-251 | Octets taken one by one add up to the run taken at once |
| WebSocket.Connection.Recv | libesphttpd/util/cgiwebsocket.c:171-272 | The receive loop on one buffer, with its look-ahead at the last header byte and its rewound index, leaves the state, deliveries and output of the octet-by-octet parser; a reply to a close frame carries the two bytes that `CloseEcho` describes |
| WebSocket.Connection.Iteration | libesphttpd/util/cgiwebsocket.c:176-271 | One pass of the loop body equals the parser on the octets it passes over, and leaves the rest of the buffer alone |
| WebSocket.Connection.Payload | libesphttpd/util/cgiwebsocket.c:215-270 | All payload octets in the buffer at once: unmasked in place, reacted to, and counted off; nothing beyond them is changed |
| WebSocket.Connection.React | libesphttpd/util/cgiwebsocket.c:229-263 | The reaction to ping, data, close and unknown opcodes, with both error exits |
| WebSocket.Connection.UnmaskInPlace | libesphttpd/util/cgiwebsocket.c:222 | The run is unmasked in place, the rest of the buffer is untouched, the counter advances modulo 256 |
| WebSocket.Connection.HeaderOctet | libesphttpd/util/cgiwebsocket.c:179-206 | One header octet in the code's states and fields is one octet of the parser; a payload octet changes nothing |
| WebSocket.Connection.SendFrameHead | libesphttpd/util/cgiwebsocket.c:89-109 | The bytes of the header for any int length, negative ones included |
| WebSocket.Connection.Send | libesphttpd/util/cgiwebsocket.c:111-120 | A frame goes out as its header followed by its data |
| WebSocket.Connection.Close | libesphttpd/util/cgiwebsocket.c:145-153 | A close frame with the two-byte reason; the connection remembers that it closed |
| WebSocket.SentFlagsComeBack | libesphttpd/util/cgiwebsocket.c:111-120 | The flags given to `cgiWebsocketSend` are the flags that the parser derives from the frame's header; the four first octets are 0x81, 0x01, 0x82 and 0x02 |
| WebSocket.CloseReplyEchoes | libesphttpd/util/cgiwebsocket.c:253-260 | A stream of acceptable frames and a masked close frame, cut anywhere before the end of the close frame's header and anywhere behind it: the frames are delivered, one close frame is sent back, nothing behind the header is read, and the reply carries the peer's status code, whatever lies in memory behind the buffer, if and only if both octets of the code are in the buffer with the end of the header |
| WebSocketHandshake.Accept | libesphttpd/util/cgiwebsocket.c:315-328 | The buffer that held the client's key ends up with base64(SHA-1(key ++ GUID)) as a 28-character C string (section 4.2.2 of RFC 6455) |
| HandshakeExample.Answer | libesphttpd/util/cgiwebsocket.c:315-328 | The key of section 1.3 of RFC 6455, "dGhlIHNhbXBsZSBub25jZQ==", is answered with "s3pPLMBiTxaQ9kYGzzhZRbK+xOo=", byte by byte: two blocks of SHA-1 with all their rounds, and base64 |
| Bytes.XorAt | libesphttpd/util/cgiwebsocket.c:222 | Bit by bit, what the mask does to an octet |
| HttpdRuns.NothingLost | libesphttpd/core/httpd.c:433-459 | In every run of a connection: a backlog exists only behind a packet in flight, its counted size is right and at most 4096, and the flushed buffers that were kept are exactly delivered ++ in flight ++ backlog, in order |
| HttpdRuns.RunKeeps | libesphttpd/core/httpd.c:485-524 | Every receive, sent and flush step, in any possible order, preserves this invariant |
| HttpdRuns.CutOnlyWhenDelivered | libesphttpd/core/httpd.c:492-506 | When the server disconnects, the backlog is empty, nothing is in flight, and every byte flushed and kept has been delivered |
| HttpdRuns.DroppedOnlyWhenFull | libesphttpd/core/httpd.c:435-441 | A flushed buffer is dropped, whole, exactly when a packet is in flight and the backlog has no room for it |
| HttpdResponse.ChunkedResponse | libesphttpd/core/httpd.c:385-524 | Every completed chunked response, over any sends and flushes in any receive and sent events: what is delivered, in flight and waiting in the end is what was there before, the rest of the headers, non-empty chunks whose sizes fit four hex digits and whose data is exactly what `httpdSend` accepted, and one zero-size chunk, if and only if every flush found the platform idle or room in the backlog |
| HttpdResponse.ResponseOfRun | libesphttpd/core/httpd.c:485-524 | The same for whole events of a run, the first of which sends the headers |
| HttpdResponse.UnflushedResponse | libesphttpd/core/httpd.c:511-522 | A CGI function that starts on an idle connection, is called by the sent callback and never flushes by itself loses nothing |
| HttpdResponse.CutOffResponse | libesphttpd/core/httpd.c:435-441 | An instance where the condition fails: four pieces of 2000 bytes with three flushes between them fit the send buffer each time, but the packet with the zero-size chunk is thrown away |
| HttpdResponse.OpInBody | libesphttpd/core/httpd.c:385-461 | A send or a flush during a body keeps what was flushed in the form of whole chunks and at most one open one |
| HttpdResponse.KeptIsAll | libesphttpd/core/httpd.c:435-441 | What was kept of some flushed buffers is all of them only if none was thrown away |
| HttpdResponse.FlushGrows | libesphttpd/core/httpd.c:433-460 | A flush adds at most one buffer to the history, and it is kept exactly when the platform is idle or the backlog has room |
| HttpdClose.PlainThenClosed | libesphttpd/core/httpd.c:463-506 | Every response on a connection that is not chunked, from the event that brings the request to any sent events behind the response: the client is given what the buffer held and just the data that `httpdSend` accepted, if and only if every flush was taken; as many packets go out as are pending, and the connection is closed with the last of them, by when everything flushed and kept has been delivered, if and only if something was pending |
| HttpdClose.PlainResponse | libesphttpd/core/httpd.c:385-481 | The response itself: no chunk is made, and afterwards no CGI function is left and the connection is marked to be closed |
| HttpdClose.SentEvents | libesphttpd/core/httpd.c:492-507 | Without a CGI function sent events are possible exactly as often as packets are pending, each delivers the next, and the last closes the connection exactly if it is marked |
| HttpdClose.ChunkedStaysOpen | libesphttpd/core/httpd.c:463-477 | Behind every chunked response all that is pending goes out and the connection is still open |
| HttpdClose.ShortAnswer | libesphttpd/core/httpd.c:477-506 | An instance, for each of the three ways to a connection without chunks: headers and data of at most 2048 bytes go out as one packet, and the connection is closed when it has arrived |
| HttpdChunks.FlushFramesIffRoom | libesphttpd/core/httpd.c:414-427 | A flush writes the open chunk as a well-formed chunk if and only if its CR LF still fits the buffer |
| HttpdChunks.FullBufferBreaksFraming | libesphttpd/core/httpd.c:416-424 | An instance, from a new connection on: headers that fill the buffer up to the chunk header and one byte; the chunk announces FFFF bytes and has no CR LF |
| HttpdChunks.NoRoomForTerminator | libesphttpd/core/httpd.c:428-432 | An instance, from a new connection on, where the terminating chunk and its NUL do not fit the buffer |
| HttpdChunks.TerminatorRoomExactly | libesphttpd/core/httpd.c:428-432 | For headers of any length that fit the buffer: the terminating chunk of an empty body and its NUL fit behind them if and only if they have at most 2042 bytes |
| HttpdChunks.FlushAfterDone | libesphttpd/core/httpd.c:515-522 | The flush that the callbacks make after `httpdCgiIsDone` adds nothing, and the connection is as new |
| HttpdSpec.Send | libesphttpd/core/httpd.c:385-400 | The buffer never exceeds its size and an open chunk header stays inside it |
| HttpdSpec.CloseChunk | libesphttpd/core/httpd.c:414-427 | Finishing a chunk changes only the buffer and forgets the header's place |
| HttpdSpec.Flush | libesphttpd/core/httpd.c:411-461 | After a flush the buffer is empty and no chunk is open |
| Httpd.Connection.HttpdSend | libesphttpd/core/httpd.c:385-400 | On the real buffer: data is appended, behind a new chunk header if one is due, or refused; the result says which |
| Httpd.Connection.FlushSendBuffer | libesphttpd/core/httpd.c:411-461 | On the real buffer: the chunk is finished, the terminating chunk added, and the packet sent, queued or dropped |
| Httpd.Connection.FinishChunk | libesphttpd/core/httpd.c:414-427 | CR LF behind the chunk and its length patched over the four digits of its header, nothing else changed |
| Httpd.Connection.PatchHeader | libesphttpd/core/httpd.c:402-424 | Four hex digits overwrite four bytes in place |
| Httpd.Connection.EmitBuffer | libesphttpd/core/httpd.c:433-460 | The packet goes to the platform when it is idle, to the end of the backlog when there is room, and is dropped otherwise |
| Httpd.Connection.CgiIsDone | libesphttpd/core/httpd.c:463-481 | On the real fields: a chunked connection is flushed and reset, another is marked to be closed (what becomes of either is in `HttpdClose.PlainThenClosed` and `HttpdClose.ChunkedStaysOpen`) |
| Httpd.Connection.RecvCb | libesphttpd/core/httpd.c:697-783 | A receive event, as a list of operations on the send path and the final flush |
| Httpd.Connection.SentCb | libesphttpd/core/httpd.c:485-524 | A sent event: next packet of the backlog, or disconnect, or the CGI function's turn |
| HttpdPost.BodyHandedOver | libesphttpd/core/httpd.c:745-765 | Every body of positive length in any TCP segments: the buffers given to the CGI function concatenate to the body, are non-empty, at most 1024 bytes and full but for the last, and only the last sees `received == len` |
| HttpdPost.SegmentsIrrelevant | libesphttpd/core/httpd.c:745-765 | How TCP cuts the body up makes no difference |
| HttpdPost.Receiver.RecvBody | libesphttpd/core/httpd.c:745-765 | The loop over one segment, byte by byte, on the real buffer; each buffer handed over is NUL-terminated inside its allocation of `buffSize + 1` |
| HttpdPost.Begin | libesphttpd/core/httpd.c:655-671 | The buffer is as large as the body but at most MAX_POST |
| HttpdPost.UpgradeOverTcp | libesphttpd/util/cgiflash.c:155-273 | From `mkupgimg` through any TCP segmentation and the POST buffers to the chip: the upload ends in FLST_DONE; if the chip has the cells, the slot read back is exactly the selected firmware; and if the slot is made of whole sectors, nothing outside it has changed |
| HttpdArgs.UrlDecode | libesphttpd/core/httpd.c:179-201 | The start of the percent-decoded value that fits the buffer, its length returned, NUL-terminated if there is room, the rest of the buffer as before |
| HttpdArgs.FindArg | libesphttpd/core/httpd.c:208-226 | What the search through the line finds for a key is decoded into the buffer, and -1 is returned exactly when it finds nothing; for a key without an ampersand this is the first part of the `&`-split line that starts with `key=`, up to a part that starts with a line end |
| HttpdArgs.SearchIsLookup | libesphttpd/core/httpd.c:212-225 | The search by position agrees with the split list, for every line and every key without an ampersand |
| HttpdArgs.DecodedEncoded | libesphttpd/core/httpd.c:179-201 | Decoding inverts every form encoding of every byte string, whichever characters are escaped and in whichever case |
| HttpdArgs.CutShort | libesphttpd/core/httpd.c:179-201 | An escape that is cut short at the end of a value adds nothing to it |
| HttpdArgs.FormRoundTrip | libesphttpd/core/httpd.c:208-226 | For every list of fields sent as a form, looking a key up and decoding gives the data of the first field of that key, and nothing if no field has it |
| HttpdArgs.LookupHit | libesphttpd/core/httpd.c:214-219 | A match at the start of what is left of the line is the value of the first part, up to its ampersand |
| HttpdArgs.LookupMiss | libesphttpd/core/httpd.c:221-225 | Going on behind the next ampersand finds what the split list has |
| HttpdArgs.SplitAt | libesphttpd/core/httpd.c:218-222 | `strstr(p, "&")` finds the parts of the split list |
| HttpdArgs.HexVal | libesphttpd/core/httpd.c:168-173 | The value of a hex digit is below 16, whatever the character |
| HttpdArgs.HexValOfDigit | libesphttpd/core/httpd.c:168-173 | A character with a value other than 0 is the capital or small hex digit of that value |
| Strtol.EspStrtol | esphttpclient/httpclient.c:75-155 | The value and the end of any number in any base, and the value is in the range of a long |
| Strtol.NumberRead | esphttpclient/httpclient.c:75-155 | A signed number of any length is read as its mathematical value clamped to [LONG_MIN, LONG_MAX], and all its digits are consumed |
| StrtolPrinted.PrintedRead | esphttpclient/httpclient.c:75-155 | Every number n printed in any base from 2 to 36, with capital or small letters, with white space, a sign, zeros and the prefixes 0, 0x and 0b as the base allows them, in front of any character that is no digit, is read as n, or -n, clamped to 32 bits, and the position returned is the one behind it |
| StrtolPrinted.NothingRead | esphttpclient/httpclient.c:75-155 | Without a digit behind white space, a sign and a prefix, any of which may be missing, the value is 0 and the start of the text is returned |
| Strtol.CutoffIsExact | esphttpclient/httpclient.c:127-145 | The test against cutoff and cutlim fires exactly when the next value would leave the range |
| Strtol.ReadDigits | esphttpclient/httpclient.c:130-146 | The loop's 32-bit accumulator is the exact value of the digits, or the overflow is noted for good |
| Strtol.OneDigit | esphttpclient/httpclient.c:139-145 | One digit: no wrap-around in the accumulator |
| Strtol.ReadStart | esphttpclient/httpclient.c:88-108 | White space, sign and the prefixes 0x and 0b as the base asks for them |
| ChunkedDecode.Decode | esphttpclient/httpclient.c:157-184 | In-place decoding of any list of chunks (sizes with leading zeros and extensions included) leaves exactly their data at the start of the buffer and never overwrites what it has not read |
| ChunkedPrinted.DecodePrinted | esphttpclient/httpclient.c:157-184 | The same for sizes given as numbers: any list of chunks whose sizes are the lengths of their data, printed in base 16 with capital or small letters, behind any zeros and in front of any extension |
| ChunkedDecode.OneChunk | esphttpclient/httpclient.c:164-175 | One chunk's data is moved down behind what is decoded; the unread rest is untouched |
| ChunkedDecode.SizeRead | esphttpclient/httpclient.c:166-166 | The size line of a chunk is read as its size |
| ChunkedDecode.MoveDown | esphttpclient/httpclient.c:173-173 | The overlapping move copies the bytes as they were |
| ChunkedRoundTrip.DecodeResponse | esphttpclient/httpclient.c:157-184 | Round trip: for every response of which no buffer was thrown away, once all is delivered, the client's in-place decoder makes of the delivered bytes behind the headers the concatenation of the accepted data |
| ChunkedRoundTrip.HexFourValue | libesphttpd/core/httpd.c:420-424 | The four patched digits are a number that `esp_strtol` reads back, up to 65535 |
| ChunkedRoundTrip.ChunksAreWires | libesphttpd/core/httpd.c:411-432 | The server's chunks are chunks as the client parses them, with the same data |
| ChunkedRoundTrip.LastChunkEnds | esphttpclient/httpclient.c:166-169 | The zero-size chunk, with the client's NUL behind it, ends the decoding |
| FlashUploadRuns.ImageUploaded | libesphttpd/util/cgiflash.c:155-273 | An image of `mkupgimg` with the right tag (or forced), in any POST pieces with the header in the first: FLST_DONE exactly when all of it has come; then the slot holds the selected firmware, the rest of its last sector is erased, all else on the chip is as it was, and every write went to cells erased in this upload and not written since, at increasing addresses |
| FlashUploadRuns.SlotKept | libesphttpd/util/cgiflash.c:174-177 | A finished upgrade, with a slot of whole sectors and cells behind it, changes no cell outside its slot, whatever the chip held, if and only if the selected firmware has at most `fwSize` bytes; the check bounds only the sum of both |
| FlashUploadRuns.OverlongUploaded | libesphttpd/util/cgiflash.c:174-195 | An instance: a firmware one byte too long and another one byte shorter pass the check, and the byte is written behind the slot |
| FlashUploadRuns.RawUploaded | libesphttpd/util/cgiflash.c:196-213 | The same for a raw firmware or EspFS image, whose range is bounded by `fwSize` |
| FlashUploadRuns.WriteRun | libesphttpd/util/cgiflash.c:232-264 | What every byte of FLST_WRITE keeps: pages on the chip, the page in the buffer, and the discipline of erasing |
| FlashUploadRuns.UploadAnyPieces | libesphttpd/util/cgiflash.c:155-273 | An upload in pieces is an upload in one piece |
| FlashUploadRuns.SlotHolds | libesphttpd/util/cgiflash.c:252-258 | The slot read back is the image |
| FlashUploadRuns.RejectedLeavesChip | libesphttpd/util/cgiflash.c:158-218 | Once a header is rejected, or the upload is done, whatever comes changes neither the upload nor the chip |
| FlashVerdict.UploadJudged | libesphttpd/util/cgiflash.c:155-293 | Every upload, in any pieces with the header in the first: it is in FLST_ERROR if and only if the verdict on the first piece (by its bytes, the tag, `force` and the length announced) is a refusal; then it has that error and the chip is as it was, and otherwise there is no error |
| FlashVerdict.ImageJudged | libesphttpd/util/cgiflash.c:160-195 | The verdict on an image of `mkupgimg`: another tag without `force` is the wrong device, more than `2 * fwSize + 40` bytes are too many, and everything else is taken |
| FlashVerdict.ForeignFirmwareRefused | libesphttpd/util/cgiflash.c:163-172 | Firmware with another tag, not forced, in any pieces: FLST_ERROR, wrong device, and not a cell of the chip changed |
| FlashVerdict.ArchiveJudged | libesphttpd/util/cgiflash.c:196-218 | An image of `mkespfsimage`, whatever follows it, is taken for an archive and not for firmware |
| FlashVerdict.ArchiveUploaded | libesphttpd/util/cgiflash.c:196-264 | An archive that fits, in any pieces, is taken and stored, and is read back from where the file system is |
| FlashVerdict.UploadPieces | libesphttpd/util/cgiflash.c:126-293 | The code called with the buffers of a whole body: the reply has status 400 if the verdict is a refusal and 200 otherwise, it carries the error, and it says ok if and only if the upload is done |
| FlashUploadSpec.FeedSplit | libesphttpd/util/cgiflash.c:155-273 | The byte-by-byte upload does not care where the data is cut |
| FlashUploadSpec.Begin | libesphttpd/util/cgiflash.c:156-218 | FLST_START consumes at most the buffer, decides the state and does not touch the chip (what it decides is in `FlashVerdict.UploadJudged`) |
| FlashUpload.Uploader.Cgi | libesphttpd/util/cgiflash.c:126-293 | One call on a POST buffer, page by page, equals the byte-by-byte upload; the reply is sent when all data has been received and says whether the upload is done |
| FlashUpload.Uploader.Start | libesphttpd/util/cgiflash.c:156-218 | The header decisions on the real fields |
| FlashUpload.Uploader.Skip | libesphttpd/util/cgiflash.c:219-231 | Skipping a run at once equals skipping its bytes one by one |
| FlashUpload.Uploader.Write | libesphttpd/util/cgiflash.c:232-264 | Filling and flashing a page at once equals doing it byte by byte; a step that takes nothing changes the state |
| FlashUpload.Uploader.FlashPage | libesphttpd/util/cgiflash.c:251-263 | Erase at a sector start, write, next address, and the state after the last byte |
| NorFlash.PageStored | libesphttpd/util/cgiflash.c:251-258 | Under AND-writes, a page written after its sector was erased reads back as its data |
| NorFlash.PageOrderly | libesphttpd/util/cgiflash.c:251-258 | One more page keeps every write on clean cells, in order and within the sectors of the upload |
| Bytes.AndAt | libesphttpd/util/cgiflash.c:258 | Bit by bit, what a write makes of a cell of the chip |
| UpgradeImage.MakeImage | libesphttpd/mkupgimg/mkupgimg.c:45-91 | The image is header ++ user1 ++ user2, or the tag is too long |
| Bytes.LowestFirst | libesphttpd/mkupgimg/mkupgimg.c:27-35 | A length is written with its lowest byte first |
| UpgradeImage.HeaderReadBack | libesphttpd/mkupgimg/mkupgimg.c:59-67 | The upload reads back the tag and both lengths from the header |
| Template.Serve | libesphttpd/core/httpdespfs.c:188-339 | For every template and every callback, suspending any finite number of times in any token: the concatenated output of all calls is the whole file rendered |
| Template.TplData.Cgi | libesphttpd/core/httpdespfs.c:243-338 | Every call ends with the output a correct prefix and the state to resume from, and makes progress; the last one has sent the whole rendering |
| Template.TplData.Scan | libesphttpd/core/httpdespfs.c:264-315 | The scanning loop keeps sent, held-back and coming text equal to the rendering, and stops only for a callback that wants more |
| Template.TplData.AnswerToken | libesphttpd/core/httpdespfs.c:285-309 | One call of the callback: one part of the answer, and MORE or on with the text |
| Template.TplData.TokenCharacter | libesphttpd/core/httpdespfs.c:311-311 | A token name is kept up to 63 characters |
| Template.TplData.ReadChunk | libesphttpd/core/httpdespfs.c:256-257 | At most 1024 bytes of the file are read on |
| TemplateSpec.EscapedTextComesOut | libesphttpd/core/httpdespfs.c:266-282 | Any text with its percent signs doubled is rendered as it is |
| TemplateSpec.RenderNamed | libesphttpd/core/httpdespfs.c:283-309 | A token is replaced by all parts of its answer in order; its name counts up to 63 characters |
| TemplateSpec.RenderUnclosed | libesphttpd/core/httpdespfs.c:264-315 | A token that is not closed is dropped, however long |
| TemplateSpec.RenderText | libesphttpd/core/httpdespfs.c:270-276 | Text without percent signs is copied |
| Sha1.Sha1Info.Result | libesphttpd/core/sha1.c:117-135 | For every message shorter than 2^32 bytes the result is its SHA-1 by sections 5.1.1 and 6.1.2 of FIPS 180-4 |
| Sha1.HashOf | libesphttpd/core/sha1.c:25-135 | The same for a message written in any pieces |
| Sha1.Sha1Info.HashBlock | libesphttpd/core/sha1.c:39-74 | The 16-word circular schedule and the code's round functions compress a block as the 80-word algorithm does |
| Sha1.WindowLate | libesphttpd/core/sha1.c:47-50 | From round 16 on, the new word is the schedule's next, and overwriting the oldest word keeps the last sixteen |
| Sha1.CodeSumIsRound | libesphttpd/core/sha1.c:51-65 | A round in the code's form is a round of the standard |
| Sha1.CodeFIsF | libesphttpd/core/sha1.c:51-59 | The code's forms of Ch and Maj are those of the standard, for all words |
| Sha1.Sha1Info.AddUncounted | libesphttpd/core/sha1.c:76-88 | One octet more is absorbed: stored, and the block compressed when it is full |
| Sha1.FillNext | libesphttpd/core/sha1.c:76-82 | A byte stored at `offset ^ 3` in little-endian memory is the next octet of big-endian words |
| Sha1.XorThreeIsXor | libesphttpd/core/sha1.c:81-81 | `offset ^ 3` turns the bytes of each word round |
| Sha1.Sha1Info.StoreOctet | libesphttpd/core/sha1.c:76-82 | A byte is stored at `offset ^ 3` in the memory of the buffer's words, and nothing else changes |
| Sha1.FullBuffer | libesphttpd/core/sha1.c:76-87 | A full buffer is the sixteen big-endian words of its block |
| Sha1.AbsorbedBlock | libesphttpd/core/sha1.c:84-87 | Completing a block keeps the running hash that of all blocks so far |
| Sha1.Sha1Info.Write | libesphttpd/core/sha1.c:90-97 | Every byte of the data is absorbed and counted |
| Sha1.Sha1Info.PadMessage | libesphttpd/core/sha1.c:99-115 | The padding is that of section 5.1.1 and ends on a block boundary |
| Sha1.PadSteps | libesphttpd/core/sha1.c:103-104 | The loop of zero bytes stops after exactly the standard's number of them |
| Sha1.LengthOctets | libesphttpd/core/sha1.c:107-114 | The eight length octets, from a 32-bit byte count, are the bit length in 64 bits |
| Sha1.SwappedMemory | libesphttpd/core/sha1.c:121-131 | The swapped word in little-endian memory is the big-endian word |
| Base64.Encode | libesphttpd/core/base64.c:80-108 | The buffer gets the encoding of section 4 of RFC 4648 and a NUL, and the length is returned; or -1 if and only if they do not fit, with the buffer filled by their start |
| Base64.Decode | libesphttpd/core/base64.c:42-67 | The buffer gets the octets of the text's digits (white space skipped, up to `=` or a foreign character); or -1 if and only if they do not fit |
| Base64.EncodeThenDecode | libesphttpd/core/base64.c:42-108 | For data of every length: encoding yields 4*ceil(n/3) characters and fails exactly when these and the NUL do not fit; decoding it fails exactly when n exceeds the room, and otherwise returns the data |
| Base64Spec.RoundTrip | libesphttpd/core/base64.c:42-108 | Decoding an encoding gives the data back |
| Base64Spec.SpacesSkipped | libesphttpd/core/base64.c:49-49 | White space anywhere in a text changes nothing |
| Base64Spec.Alphabet | libesphttpd/core/base64.c:5-22 | The letters in the order of table 1 of RFC 4648 |
| Base64Spec.ForeignEnds | libesphttpd/core/base64.c:47-52 | A character that is neither a letter nor white space, `=` or any other, ends the text for the decoder |
| Base64Spec.Encoding | libesphttpd/core/base64.c:80-108 | An encoding has 4*ceil(n/3) characters |
| Base64Spec.EncodingAt | libesphttpd/core/base64.c:84-98 | Character k of the grouped encoding is the letter of the k-th six bits, or padding |
| Base64Spec.OctetsAt | libesphttpd/core/base64.c:53-59 | Octet m of the grouped decoding is the m-th eight bits of the digits |
| Base64.HoldsNext | libesphttpd/core/base64.c:86-87 | Shifting eight bits into the 32-bit accumulator keeps its low sixteen bits the last two octets, whatever falls off the top |
| Base64.DigitsNext | libesphttpd/core/base64.c:53-54 | The same for six bits and the last two digits |
| Base64.TakenIsSextet | libesphttpd/core/base64.c:89-93 | The bits taken out at a shift of `rem` are the next six bits of the data |
| Base64.AlignedIsSextet | libesphttpd/core/base64.c:95-99 | The bits left at the end, shifted up, are the last digit |
| Base64.EightIsOctet | libesphttpd/core/base64.c:55-59 | The bits taken out in decoding are the next octet |
| EspFs.Fetch | libesphttpd/espfs/espfs.c:124-214 | In an image of the writer, for every list of storable files: opening a name (its initial slashes dropped) and reading in pieces of any sizes delivers the first file of that name, and nothing is opened if there is none |
| EspFsArchive.WriteAndFetch | libesphttpd/espfs/mkespfsimage/main.c:334-360 | Writer and reader together: for any paths and files given to the writer, with the archive anywhere on a chip, a request for the name behind any number of slashes delivers the content of the first file whose path was "./name", "/name", ".name" or "name", as it was compressed or not, in pieces of any sizes; and it finds nothing if there is no such path |
| EspFsArchive.DenotesIsRealName | libesphttpd/espfs/mkespfsimage/main.c:340-343 | A path is stored under a name exactly if it is the name itself or the name behind a period, a slash or both |
| EspFsArchive.HeaderJudged | libesphttpd/espfs/espfs.c:141-192 | What any header does to the search, by its sixteen bytes and whether the name behind it is the one wanted: the end, a file, an unknown compression, or on to the next multiple of four behind the content |
| EspFsArchive.ImageBytes | libesphttpd/espfs/mkespfsimage/main.c:177-271 | An archive of two files, one of them compressed, byte by byte |
| EspFs.Open | libesphttpd/espfs/espfs.c:124-194 | On any flash contents on which the search ends: the handle of the file it ends at, or NULL for a broken header, the last one, or an unknown compression |
| EspFsTermination.EndsExactly | libesphttpd/espfs/espfs.c:141-192 | On any flash contents the search ends if and only if it does so within as many headers as the chip has words |
| EspFsTermination.CircleForever | libesphttpd/espfs/espfs.c:188-192 | A header with a content length of -16 leads the search back to itself for ever, unless its name is the one wanted |
| EspFsTermination.CircleInstance | libesphttpd/espfs/espfs.c:188-192 | An instance: a chip with such a header at its start |
| EspFs.EspFsFile.Read | libesphttpd/espfs/espfs.c:197-214 | The next `len` bytes of the file, or as many as are left, are copied and passed over; the rest of the buffer is as before |
| EspFs.ReadFlashUnaligned | libesphttpd/espfs/espfs.c:97-105 | Any bytes of the flash, with aligned reads only, in a temporary buffer that is large enough |
| EspFs.ServedIsPrefix | libesphttpd/espfs/espfs.c:197-214 | The pieces of any sequence of reads concatenate to a prefix of the file, of the length asked for in all or the whole file |
| EspFs.ServedUntilEnd | libesphttpd/espfs/espfs.c:203-211 | A read returns nothing exactly when it asks for nothing or the file is at its end, and never more than asked for |
| EspFs.FirstFile | libesphttpd/espfs/espfs.c:141-192 | The search in an image ends at an aligned header with the content of the first file of the name, or at the last header |
| EspFsImage.SearchImage | libesphttpd/espfs/espfs.c:141-192 | The search in an image passes at most all files and stops at the entry of the first one with the name |
| EspFsImage.ExamineEntry | libesphttpd/espfs/espfs.c:141-192 | At an entry the search stops if it has the name, and otherwise goes on at the next entry, which is aligned |
| EspFsImage.ExamineLast | libesphttpd/espfs/espfs.c:150-153 | The last header ends the search without a file |
| EspFsImage.HeaderBack | libesphttpd/espfs/espfsformat.h:26-33 | The reader gets every header field as the writer meant it |
| EspFsImage.NameRead | libesphttpd/espfs/espfs.c:155-161 | 256 bytes read at an entry's name hold the name as a C string |
| EspFsImage.FileLengthBack | libesphttpd/espfs/espfs.c:201-201 | The length read through the handle is that of the stored bytes, and these follow at the start position |
| EspFsFormat.Archive.HandleFile | libesphttpd/espfs/mkespfsimage/main.c:177-259 | The output grows by the entry of the file: header, padded name, padded content; compressed content is kept unless it is longer |
| EspFsFormat.Archive.WritePadding | libesphttpd/espfs/mkespfsimage/main.c:233-242 | Zeros up to the next multiple of four |
| EspFsFormat.Archive.FinishArchive | libesphttpd/espfs/mkespfsimage/main.c:262-271 | The last header |
| EspFsFormat.WriteImage | libesphttpd/espfs/mkespfsimage/main.c:334-360 | The program's loop writes the image of the list of files under the names that their paths denote |
| EspFsFormat.Entry | libesphttpd/espfs/mkespfsimage/main.c:221-242 | An entry takes a multiple of four bytes |
| DnsLabels.LabelToStr | libesphttpd/util/captdns.c:119-147 | On any packet on which the loop ends: the dotted text it leaves, NUL-terminated in a buffer that has room for the NUL, and the position it returns, or NULL |
| DnsTermination.EndsExactly | libesphttpd/util/captdns.c:123-144 | On any packet and from any position the loop ends if and only if it does so within as many rounds as there are positions and lengths of the text |
| DnsTermination.StuckForever | libesphttpd/util/captdns.c:124-144 | A pointer to itself and a length byte with the reserved bits 01 or 10 keep the loop where it is for ever |
| DnsTermination.StuckInstances | libesphttpd/util/captdns.c:124-144 | Instances of all three |
| DnsTermination.NulOutside | libesphttpd/util/captdns.c:127-145 | For every name, if the loop ends without failing: the NUL is written behind a buffer of `resMaxLen` bytes if and only if the text of the name has at least that many |
| DnsNames.NameRead | libesphttpd/util/captdns.c:119-168 | Every name of labels of 1 to 63 bytes (section 3.1 of RFC 1035), uncompressed or with any number of pointers (section 4.1.4): the loop ends, the text is that of the expanded name, and `strToLabel` makes the expanded wire form of it; the position returned is the one behind the name if and only if there is at most one pointer |
| DnsNames.ChainParsed | libesphttpd/util/captdns.c:119-147 | From anywhere in a name: the text of all labels to come is added, and the position kept is the one behind the last pointer |
| DnsNames.PointersDiffer | libesphttpd/util/captdns.c:135-137 | With two pointers or more the last is at another place than the first, so the position returned is wrong |
| DnsNames.TwoPointers | libesphttpd/util/captdns.c:135-137 | An instance: a name of four bytes for which position 8 is returned |
| DnsLabels.StrToLabel | libesphttpd/util/captdns.c:151-168 | The labels of any dotted string, with their lengths written in front of them afterwards, and nothing else in the buffer changed |
| DnsLabels.RoundTrip | libesphttpd/util/captdns.c:151-168 | The text of a name in label form is the name's wire form, with a pointer followed |
| DnsLabels.ExamineLabel | libesphttpd/util/captdns.c:124-132 | One label is added to the text, behind a dot if it is not the first |
| DnsLabels.CopyStops | libesphttpd/util/captdns.c:128-132 | A label for which the text has no room: what fits is copied, and the position stays behind that, within the label |
| DnsLabels.Refused | libesphttpd/util/captdns.c:124-142 | While the text has room, a packet is refused exactly where a label or the target of a pointer lies beyond its end |

## Left out

- DnsLabels.LabelToStr: called only where the loop ends (`DnsTermination.EndsExactly` says exactly where) and where the NUL has its place; two bytes behind the packet are given as memory.
- EspFs.Open: called only where the search ends (`EspFsTermination.EndsExactly` says exactly where); a name field of 256 bytes without a NUL is compared as those 256 bytes.
- EspFs.Fetch: a name that starts with a slash is never found, since the reader strips slashes and the writer strips only one.
- EspFsFormat.Archive.HandleFile: empty files are excluded, because the writer divides by the size.
- WebSocket.Connection.Recv: an application callback that sends or closes from inside `recvCb`, and no calls after it has returned Done.
- WebSocket.CloseReplyEchoes: close frames without a status code, for which there is nothing to repeat.
- WebSocketFrames.AnySegmentation: masked frames only; the code also unmasks unmasked ones with whatever mask is stored.
- WebSocketHandshake.Accept: the key and the GUID must fit the 256-byte buffer, which `strcat` does not check.
- Httpd.Connection.FlushSendBuffer: the terminating chunk and its NUL must fit the buffer, which the code does not check; so too for Httpd.Connection.CgiIsDone and Httpd.Connection.SentCb.
- Httpd.Connection.RecvCb: which operations on the send path an event performs is given, not derived from the request.
- HttpdResponse.ChunkedResponse: every flush must have room for the CR LF of its chunk, as `HttpdChunks.FlushFramesIffRoom` shows it needs.
- FlashUploadRuns.ImageUploaded: the header is in the first POST buffer with non-negative lengths, as the code takes for granted.
- Sha1.Sha1Info.Result: messages of 2^32 bytes and more, for which the 32-bit count is wrong; the state after the result, and HMAC.
- Base64.Decode: the branch behind the loop for eight bits or more left over, which is proved never to be taken.
- HttpdPost.Receiver.RecvBody: a Content-Length that is not positive, and what `httpdRecvCb` does with bytes behind the body.
- The linked lists of the backlog and of the open websockets are sequences; pointers into buffers are offsets.
- httpdSend, httpdFlushSendBuffer and httpdSentCb on a connection whose peer has gone (`conn->conn == NULL`).
- The output of websockets and templates is the bytes handed to `httpdSend`; whether the send buffer takes them is the subject of the send path alone.
- The platform is one packet in flight, taken exactly when idle, as esp_iot_sdk_v1.5.2/include/espconn.h:388 asks of callers; sockets, timers and the FreeRTOS loop are not part of this model.
- Flash: an erase sets a sector to 0xFF, a write is a bitwise AND of exactly the bytes given; wear, rounding of lengths to words and write protection are not modelled.
- Heatshrink and gzip: compressed contents are opaque bytes.
- Request heads, MIME types, methods, authentication, CORS and URL routing.
- Allocation failures and logging.
- WiFi, reset, serial and motor code, the SBMP link, number formatting, and everything in other languages.
