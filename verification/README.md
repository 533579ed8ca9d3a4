# A verified model of the ESP8285 captive access point

The firmware opens a WiFi access point, answers every DNS question with its own address, and serves
files from an SD card over HTTP and WebSocket. This project models its protocol logic in Dafny and
proves what it is for. Every file is one module:

| files | part of the firmware |
|---|---|
| `Common`, `Bytes`, `Gf2`, `Crc` | options and slices; octets and big-endian numbers; polynomials over GF(2); the CRC7 and CRC16 loops |
| `SdCard`, `SdSpi`, `SdRuns` | an honest SD card as an environment; the SD-over-SPI block driver run against it; sequences of its calls |
| `HttpRecv`, `HttpHeaders`, `HttpStream`, `HttpParse` | the socket with put-back buffer; the in-place header store and its lookups; http_parser as an oracle over the byte stream; one request, from the first block to the next request |
| `Chunked`, `HttpSend` | the chunked coding of RFC 9112; responses over partial sends, and the file loop |
| `WsFormat`, `WsServer` | RFC 6455 frames; receiving them in parts and answering control frames |
| `Lifecycle`, `LifecycleProofs`, `LifecycleRuns` | orchestrator, DNS tasks, WiFi event handler and shutdown as interleaved steps; what each step keeps; what every run keeps |
| `HttpSess`, `HttpUri` | the session table with its LRU; the handler table and URI templates |
| `DnsFormat`, `DnsServer`, `DnsTask` | messages of RFC 1035; the reply to a datagram; the buffer it is made in, and the rate limiter |

Environments (sockets, the card, http_parser, the scheduler, stations that come and go) are methods or
steps that choose what happens. A failure or a timeout is one of the choices, so each result holds
for every schedule, every split of the byte streams and every point of failure. Constants mark
environments that are kind (an ideal card, a prompt peer, a wire that is up, a parser that reports all it
has in hand), and for those the methods
are proved to succeed as well. Objects the firmware
updates in place are classes here, its buffers are arrays, and each method is proved against a
statement about streams, sectors or lists. The concurrent part is a state machine whose steps are the
single accesses to shared state.

## What the proofs found

Where the firmware falls short of what it is for, the model keeps its behaviour and says exactly when.

- A request without any header leaves the next request to be read from the URL of the same one, so
  keep-alive framing holds if and only if there is a header (`FramedIffHeaders`); every such request that
  fits a block from its URL on, with what follows it, is parsed and leaves the session there
  (`BareRequestRun`).
- `httpd_req_get_hdr_value_str()` documents a truncation error whenever a value does not fit. It
  reports success, one byte short, when the buffer size equals the length of the value, and at no other
  size (`TruncatedYetOk`).
- Sector numbers of a byte-addressed card are multiplied by 512 in 32 bits, so the card sees them modulo
  2^23 (`ByteAddress`, and `Target` in the contracts of `Read` and `Write`).
- The announcement of a block count (CMD55, ACMD23) is not checked, so a multiple-block write can run under
  the count of an earlier write that was announced and then failed. A write of one block, or of no fewer
  blocks than the card was last told of, leaves everything outside its range alone (`WriteInRange`); for any
  other a card and a bus exist that wipe the sector after it while success is reported
  (`StaleCountWipes`), and two calls lead there (`StaleCountArises`). After a call that succeeded no
  announcement is pending, so the next write stays in its range (`Session`).
- STOP counts the stations and clears the bit in two steps. A station whose Connected event is handled
  in between is lost: exactly when no other event or START is waiting (`MissedIsLost`), and such a run
  exists (`WakeupCanBeLost`). All other runs without dropped commands or failing station lists are
  right (`NoLostWakeup`, `SettledRight`).
- A DNS task that failed may report its error late. A restart is always on account of a task that died in
  error, and it stops that task if and only if none has been created since (`RestartIsForTheSender`); the
  orchestrator does not ask, so any later task is stopped for it (`LateErrorStopsSuccessor`), and a run
  gets to a healthy one (`HealthyTaskCanBeStopped`).
- A new session takes over the counter of the last request. The LRU choice is the oldest if and only if no
  eligible session with the same counter is older; so it is the oldest whenever it has finished a request
  or shares its counter with no other (`OldestIffNoOlderTwin`), and a run exists in which the newest session
  goes first (`NewcomerIsClosed`).
- The check for registering a handler twice goes by the text of the template, and a template ending in
  a lone question mark does not match its own text (`OwnTextMatches`, `RegisteredTwice`).
- A chunk size of 2^28 or more would not fit the buffer of its size line (`SizeLineIntact`).
- The number of octets a WebSocket send took is not looked at. The peer reads the frame that was meant if and
  only if all of header and payload went out (`SendFrame`, `FrameReadIffWhole`); after a header cut to one
  octet it takes the payload for the rest of the header (`CutHeaderMisleads`).
- A DNS question whose name ends in a compression pointer is answered, with a reply that cannot be read, and
  these are the only such replies (`SkippedIsNameIffNoPointer`, `ReplySays`, `PointerQueryUnreadable`).

## Model

| member | source | states |
|---|---|---|
| Gf2.RegisterIsTheRemainder | components/sd_spi_driver/diskio_sd_spi.c:156-166 | a bit-serial register computes the remainder of message * x^n modulo its polynomial, and that remainder is unique |
| Gf2.FeedLinear | components/sd_spi_driver/diskio_sd_spi.c:151-170 | the register is XOR-linear in preset and message together |
| Gf2.BurstIsDetected | components/sd_spi_driver/diskio_sd_spi.c:297-308 | a nonzero error no longer than the register turns a codeword into a non-codeword, at any length and place |
| Crc.Crc16 | components/sd_spi_driver/diskio_sd_spi.c:151-170 | the nested loops on a 16-bit word leave the bits of the polynomial register |
| Crc.Crc7 | components/sd_spi_driver/diskio_sd_spi.c:128-147 | the register one place up in an octet leaves the seven remainder bits and the stop bit |
| Crc.Crc16IsTheRemainder | components/sd_spi_driver/diskio_sd_spi.c:151-170 | CRC16 is the remainder modulo x^16 + x^12 + x^5 + 1, and nothing else is |
| Crc.Crc7IsTheRemainder | components/sd_spi_driver/diskio_sd_spi.c:128-147 | CRC7 is the remainder modulo x^7 + x^3 + 1, and nothing else is |
| Crc.CodewordIffCrc | components/sd_spi_driver/diskio_sd_spi.c:297-308 | message and check bits have CRC 0 if and only if the check bits are the CRC of the message |
| Crc.Crc16IsLinear | components/sd_spi_driver/diskio_sd_spi.c:151-170 | the CRC of an XOR of equally long messages is the XOR of their CRCs |
| Crc.Crc16CatchesBursts | components/sd_spi_driver/diskio_sd_spi.c:297-308 | any nonzero burst of at most 16 bits in data or check bits is caught, for any message |
| Crc.ChecksIffTrailerIsCrc | components/sd_spi_driver/diskio_sd_spi.c:335-338 | the two trailing octets complete a block to a codeword if and only if they are its CRC, high octet first |
| Crc.BurstOnBlock | components/sd_spi_driver/diskio_sd_spi.c:297-308 | a block that still checks after a burst was not changed |
| SdCard.TrailerOfBlock | components/sd_spi_driver/diskio_sd_spi.c:297-308 | comparing the recomputed CRC octet by octet decides whether a received block checks |
| SdSpi.ByteAddress | components/sd_spi_driver/diskio_sd_spi.c:600-602 | a byte address cut to 32 bits is block-aligned and names the sector modulo 2^23 |
| SdSpi.Driver.FrameIsWellFormed | components/sd_spi_driver/diskio_sd_spi.c:383-401 | the six octets sent are start bits, command, big-endian argument, CRC7 and stop bit, and the card reads the same command and argument back |
| SdSpi.Driver.SendCmd | components/sd_spi_driver/diskio_sd_spi.c:360-411 | answer 0 means that the card accepted this command (for an application command, the one behind the CMD55) with this argument, and what that did to it; only CMD25 may change sectors, and then only as many as were announced before it |
| SdSpi.Driver.RcvrDataBlock | components/sd_spi_driver/diskio_sd_spi.c:273-316 | success gives the stored sector (CRC verified, or quiet lines) and moves the card on by one; the rest of the buffer and all sectors stay |
| SdSpi.Driver.XmitDataBlock | components/sd_spi_driver/diskio_sd_spi.c:318-358 | success means the next sector holds these 512 octets; failure can only have touched that sector; the stop token changes none |
| SdSpi.Driver.Read | components/sd_spi_driver/diskio_sd_spi.c:591-633 | RES_OK gives count stored sectors in order and leaves no announcement pending, nothing is written to the card or past the buffer, each error code exactly when it is due, and no failure on an ideal card |
| SdSpi.Driver.ReadRun | components/sd_spi_driver/diskio_sd_spi.c:616-624 | the loop of a multiple-block read fills the buffer sector by sector |
| SdSpi.Driver.Write | components/sd_spi_driver/diskio_sd_spi.c:635-681 | RES_OK leaves exactly the buffer in the sectors asked for and no announcement pending; whatever the result, no sector changes beyond the range, or beyond an older announcement under which a multiple-block write runs; each error code exactly when it is due, and no failure on an ideal card |
| SdSpi.Driver.WriteOne | components/sd_spi_driver/diskio_sd_spi.c:650-656 | one block: no other sector changes, whatever was announced before |
| SdSpi.Driver.WriteMany | components/sd_spi_driver/diskio_sd_spi.c:657-676 | several blocks: the reach is the greater of the count and the one announced before; an ideal card that turns the new announcement down erases under the old one |
| SdSpi.Driver.WriteRun | components/sd_spi_driver/diskio_sd_spi.c:663-671 | the loop of a multiple-block write changes no sector but those it has come to |
| SdSpi.HoldsDetermines | components/sd_spi_driver/diskio_sd_spi.c:591-681 | what a run of sectors holds determines the buffer read from it |
| SdSpi.WriteThenRead | components/sd_spi_driver/diskio_sd_spi.c:591-681 | a write and a read that both succeed give the buffer back |
| SdRuns.WriteInRange | components/sd_spi_driver/diskio_sd_spi.c:635-681 | a write of one block, or of no fewer blocks than were last announced, changes no sector outside [s, s + count), whatever its result |
| SdRuns.StaleCountWipes | components/sd_spi_driver/diskio_sd_spi.c:659-661 | the converse: for every other write there is a card that wipes the sector after the range, and the result is RES_OK |
| SdRuns.StaleCountArises | components/sd_spi_driver/diskio_sd_spi.c:657-676 | a run of two calls in which that happens |
| SdRuns.Session | components/sd_spi_driver/diskio_sd_spi.c:591-681 | in any sequence of reads and writes, a write after a call that succeeded, or after none that could have left an announcement behind, changes nothing outside its range, and a read nothing at all |
| HttpRecv.Conn.RecvPending | components/esp_http_server/src/httpd_txrx.c:86-97 | takes from the front of the put-back bytes, in order, and leaves the rest of the stream |
| HttpRecv.Conn.RecvWithOpt | components/esp_http_server/src/httpd_txrx.c:99-146 | what is delivered is the next part of put-back bytes followed by socket bytes; under which option and result nothing is lost; a prompt peer gives what is asked |
| HttpRecv.Conn.RecvLoop | components/esp_http_server/src/httpd_txrx.c:121-142 | any split of socket reads adds up to one contiguous piece of the stream |
| HttpRecv.Conn.Unrecv | components/esp_http_server/src/httpd_txrx.c:153-165 | the bytes put back come before everything still unread |
| HttpHeaders.HdrValueLen | components/esp_http_server/src/httpd_parse.c:1018-1070 | in the overwritten store, the length of the value of the first header of that name, letter case aside |
| HttpHeaders.HdrValueStr | components/esp_http_server/src/httpd_parse.c:1073-1135 | that value, copied whole with a terminator if it fits; which result for which size |
| HttpHeaders.FindValue | components/esp_http_server/src/httpd_parse.c:1034-1065 | walking the NUL-overwritten lines finds the first match of the header list, or none |
| HttpHeaders.FirstMatch | components/esp_http_server/src/httpd_parse.c:1034-1065 | the list-level meaning of a lookup: the first equal name |
| HttpHeaders.LineInStore | components/esp_http_server/src/httpd_parse.c:1034-1065 | the k-th header of a list stands in the store where the pointers will find it |
| HttpHeaders.TruncatedYetOk | components/esp_http_server/src/httpd_parse.c:1073-1135 | success with a value cut short happens if and only if the buffer is exactly as long as the value |
| HttpStream.HttpParser.Feed | components/esp_http_server/src/httpd_parse.c:583-611 | its precondition is the law of exactly-once feeding: the block handed over is what follows the bytes counted as parsed |
| HttpParse.HttpdReq.PauseParsing | components/esp_http_server/src/httpd_parse.c:146-178 | the bytes after the pause point are in front of the socket again, none lost, none doubled; it fails if and only if they do not fit |
| HttpParse.HttpdReq.SkipPreParsed | components/esp_http_server/src/httpd_parse.c:180-194 | what the parser had eaten before the pause is not fed to it again: the rest of the block begins at the byte of the stream it has come to, and if there is no rest the loop goes on as if nothing had been read |
| HttpParse.HttpdReq.CbUrl | components/esp_http_server/src/httpd_parse.c:112-144 | the URL callback succeeds if and only if the URL so far is within its limit and none but URL callbacks have come before, and the fields then follow the step on values |
| HttpParse.HttpdReq.CbHeaderField | components/esp_http_server/src/httpd_parse.c:199-255 | the first field pauses, a later one overwrites the line end before it, a further piece lengthens the name |
| HttpParse.HttpdReq.CbHeaderValue | components/esp_http_server/src/httpd_parse.c:260-299 | a value in any number of pieces, and the place of an empty one found by walking back |
| HttpParse.HttpdReq.CbHeadersComplete | components/esp_http_server/src/httpd_parse.c:304-415 | line ends and blank line are overwritten up to the second line feed, and the body length is recorded |
| HttpParse.HttpdReq.CbOnBody | components/esp_http_server/src/httpd_parse.c:420-447 | parsing is complete and the body is back in front of the socket, if and only if the head was complete and what follows fits a block |
| HttpParse.HttpdReq.CbNoBody | components/esp_http_server/src/httpd_parse.c:452-488 | parsing is complete and the next bytes are back in front of the socket, from where `last.at` is; when it fails, it is for the state, the URL, or because those bytes do not fit a block |
| HttpParse.UrlTracks | components/esp_http_server/src/httpd_parse.c:112-144 | after a URL callback the fields still say what the parser has reported |
| HttpParse.FieldTracks | components/esp_http_server/src/httpd_parse.c:199-255 | the same for a header name, with the line ends before it turned into NULs |
| HttpParse.ValueTracks | components/esp_http_server/src/httpd_parse.c:260-299 | the same for a header value, empty ones included |
| HttpParse.HeadTracks | components/esp_http_server/src/httpd_parse.c:304-362 | at the end of the head the buffer is the header list with NULs for line ends, then the body |
| HttpParse.MoreTracks | components/esp_http_server/src/httpd_parse.c:490-550 | reading a further block changes nothing that was tracked |
| HttpParse.HttpdReq.ReadBlock | components/esp_http_server/src/httpd_parse.c:490-550 | a block read is the next piece of the stream, wherever it was cut, and a timeout leaves all as it was |
| HttpParse.HttpdReq.Execute | components/esp_http_server/src/httpd_parse.c:552-600 | any number of callbacks inside a block, and a pause or failure in any of them, keeps fields and stream together; a kind parser and a request within the limits make no callback fail |
| HttpParse.HttpdReq.ParseBlock | components/esp_http_server/src/httpd_parse.c:552-624 | one block is fed exactly once, less what had been eaten before a pause; the loop gets nearer its end |
| HttpParse.HttpdReq.ParseReq | components/esp_http_server/src/httpd_parse.c:650-693 | for every split of reads and callbacks: URL, header list, body length and the place in the stream are those of the request; a kind parser and a prompt peer parse every request within the limits on URI and headers (`Favoured`) |
| HttpParse.HttpdReq.GetHdrValueStr | components/esp_http_server/src/httpd_parse.c:1018-1135 | after parsing any header list, both lookups give the first equal name's value |
| HttpParse.HttpdReq.ReqRecv | components/esp_http_server/src/httpd_txrx.c:619-655 | body bytes come in order and never beyond the body, and some come if some are there |
| HttpParse.HttpdReq.ReqDelete | components/esp_http_server/src/httpd_parse.c:844-875 | success means that the whole body has been taken off the stream, and a prompt peer that delivers the body makes it succeed |
| HttpParse.HttpdReq.Process | components/esp_http_server/src/httpd_parse.c:764-875 | after a request that ends well, however much of the body was read, the stream is at the next request; after a parse that succeeded, a prompt peer makes it end well, and a kind parser makes the parse succeed |
| HttpParse.FramedIffHeaders | components/esp_http_server/src/httpd_parse.c:452-488 | that place is right after the body if and only if the request had a header |
| HttpParse.BareRequestRun | components/esp_http_server/src/httpd_parse.c:452-488 | every request without headers that fits a block from its URL on, with what follows, is parsed, and the session goes on at its URL |
| Chunked.HexRoundTrip | components/esp_http_server/src/httpd_txrx.c:413-417 | a size printed in hexadecimal reads back |
| Chunked.SizeLineIntact | components/esp_http_server/src/httpd_txrx.c:413-417 | the size line survives its ten-octet buffer if and only if the size is below 2^28 |
| Chunked.DecodeChunks | components/esp_http_server/src/httpd_txrx.c:342-441 | a decoder of section 7.1 of RFC 9112 gives back the joined data of any chunks, and what follows |
| Chunked.DecodeCutChunks | components/esp_http_server/src/httpd_txrx.c:342-441 | a chunked body cut anywhere before its end is seen to be unfinished |
| HttpSend.Response.SendAll | components/esp_http_server/src/httpd_txrx.c:68-84 | over any partial sends, all octets in order on success and a proper prefix on failure |
| HttpSend.Response.SendHead | components/esp_http_server/src/httpd_txrx.c:364-410 | the head is sent whole, or a proper prefix of it |
| HttpSend.Response.SendChunk | components/esp_http_server/src/httpd_txrx.c:342-441 | head before the first chunk only; then size line, data and line end, whole or a proper prefix |
| HttpSend.Response.ServeFile | main/web_server.c:403-453 | the closing chunk goes out only if the file was read and sent whole, and the body then decodes to exactly the file; in every other run the receiver is left waiting; with a wire and a file that do not fail and servers that stay it does go out |
| WsFormat.SendHeaderRoundTrip | components/esp_http_server/src/httpd_ws.c:409-438 | the header sent reads back, by section 5.2 of RFC 6455, as the same FIN, opcode and length, unmasked |
| WsFormat.ShortestBut65535 | components/esp_http_server/src/httpd_ws.c:417-435 | the shortest form of the length is used for every length but 65535 |
| WsFormat.MaskedSlice | components/esp_http_server/src/httpd_ws.c:238-250 | a part of a masked payload is the part of the payload, masked from its own offset |
| WsServer.UnmaskPayload | components/esp_http_server/src/httpd_ws.c:238-250 | the buffer is XORed in place with the key cycled from the offset, and no further |
| WsServer.HeaderInParts | components/esp_http_server/src/httpd_ws.c:276-320 | the receiver's own length logic reads a header as section 5.2 of RFC 6455 does |
| WsServer.WsReq.RecvHeader | components/esp_http_server/src/httpd_ws.c:270-336 | length (modulo 2^32) and mask are those of the frame, the payload is next in the stream, and an unmasked frame is refused |
| WsServer.WsReq.RecvFrame | components/esp_http_server/src/httpd_ws.c:252-383 | a whole frame or its next part: what is in the buffer, what is left, where the stream is, which frames are refused, and that nothing else goes wrong with a prompt peer |
| WsServer.WsReq.ReceiveParts | components/esp_http_server/src/httpd_ws.c:385-391 | parts of any sizes, joined, are a prefix of the payload the client masked; none is left exactly when all of it was got; a prompt peer makes every part succeed |
| WsServer.WsReq.SendFrame | components/esp_http_server/src/httpd_ws.c:393-460 | for every wire, what goes out is the first n octets of the header and then the first m of the payload; success says only that neither send failed, and the frame is whole if and only if both took all |
| WsServer.WsReq.GetFrameType | components/esp_http_server/src/httpd_ws.c:462-545 | a PING is answered by a PONG with the same payload and a CLOSE by an empty CLOSE, the stream is then after the frame, and other frames are left unread; with a prompt peer and a wire that does not fail this always comes about for payloads up to 126 octets |
| WsFormat.FrameReadIffWhole | components/esp_http_server/src/httpd_ws.c:445-456 | whatever number of octets of header and payload a wire took, the peer reads the frame that was meant if and only if it took all of both |
| WsFormat.CutHeaderMisleads | components/esp_http_server/src/httpd_ws.c:445-451 | a header cut after its first octet, for any frame: the peer takes the first octet of the payload for mask bit and length |
| LifecycleProofs.ServersOrch | main/orchestrator.c:26-168 | at every point of the orchestrator, which of the bits, the DNS task handle and the web server are there |
| LifecycleProofs.SignalsTask | main/dns_server.c:403-421 | only the current DNS task has yet to say it stopped, and a set bit is its own |
| LifecycleProofs.SocketsDns | main/dns_server.c:57-115 | taking, closing and forgetting the socket keeps every reachable close on an open socket of a DNS task |
| LifecycleProofs.ClosingCloser | main/power_mgmt.c:62-115 | the steps of free_proc() keep at most one caller past the semaphore |
| LifecycleProofs.WakeupOrch | main/orchestrator.c:37-95 | each orchestrator step keeps stations without servers answered by a START on the way, and servers without stations by a STOP |
| LifecycleProofs.WakeupHandler | main/wifi_ap.c:89-135 | each step of the event handler keeps the same |
| LifecycleProofs.WatchedTask | main/dns_server.c:403-421 | a DNS task that ends while it should run has its error on the way |
| LifecycleProofs.ReportedTask | main/dns_server.c:403-421 | an error is only ever sent by a task that has died of it |
| LifecycleRuns.SafeRun | main/orchestrator.c:15-168 | all these invariants hold in every run, until a restart |
| LifecycleRuns.TopOfLoop | main/orchestrator.c:26-34 | at the top of the loop SERVERS_RUNNING, DNS_RUNNING and the DNS task handle agree, and a web server implies them |
| LifecycleRuns.StopsItsOwn | main/dns_server.c:88-113 | the STOPPED bit a stop finds was set by the DNS task it is stopping, never by an earlier one |
| LifecycleRuns.NoStrayClose | main/dns_server.c:74-111 | in no run is a descriptor closed twice, or one of anybody else, whatever numbers are reused |
| LifecycleRuns.SocketOpenWhileUsed | main/dns_server.c:132-175 | the socket of a DNS task is open as long as it is used |
| LifecycleRuns.OneShutdown | main/power_mgmt.c:62-72 | of all callers of free_proc() one at most gets past the semaphore |
| LifecycleRuns.TeardownFindsAllDown | main/power_mgmt.c:81-151 | teardown is reached only with the orchestrator gone, DNS task and web server absent and every DNS task past its signal |
| LifecycleRuns.DownForGood | main/orchestrator.c:135-167 | once the orchestrator has said it is done, no continuation of the run starts a server again |
| LifecycleRuns.NoLostWakeup | main/orchestrator.c:37-95 | in every run without dropped command, failed station list, shutdown or an event that was lost in the window, whoever should be woken is being woken |
| LifecycleRuns.SettledRight | main/wifi_ap.c:89-135 | once nothing is under way the servers are up if and only if there are stations, with a DNS task that has not ended |
| LifecycleRuns.MissedIsLost | main/orchestrator.c:70-82 | a Connected event handled between count and clear is lost if and only if no other is waiting and no START is queued |
| LifecycleRuns.WakeupCanBeLost | main/orchestrator.c:64-90 | a run that settles with a station connected and the servers down |
| LifecycleRuns.HealthyTaskCanBeStopped | main/dns_server.c:410-418 | a run in which the late error of one DNS task stops its healthy successor |
| LifecycleRuns.RestartIsForTheSender | main/orchestrator.c:97-123 | in every run, a restart is on account of a task that died in error, and stops that task if and only if no other has been created since |
| LifecycleRuns.LateErrorStopsSuccessor | main/orchestrator.c:97-123 | whichever task's error is received while the DNS server should run, the current one is stopped for it |
| LifecycleRuns.ErrorsAreRestarts | main/orchestrator.c:97-123 | in every run the error counter is the number of restarts since the servers were last started |
| LifecycleRuns.PausesDouble | main/orchestrator.c:97-125 | the pause before the n-th restart since the servers were started is 2^(n-1) seconds up to the maximum, at every pause of every run |
| HttpSess.CountFull | components/esp_http_server/src/httpd_sess.c:153-163 | the active count is at its limit if and only if no slot is free, and zero if and only if all are |
| HttpSess.GoodOpened | components/esp_http_server/src/httpd_sess.c:190-229 | opening keeps count, distinct descriptors and the history behind the counters |
| HttpSess.GoodServed | components/esp_http_server/src/httpd_sess.c:423-440 | so does finishing a request |
| HttpSess.GoodClosed | components/esp_http_server/src/httpd_sess.c:356-394 | so does closing, across the reset of the counter with the last session |
| HttpSess.Httpd.GetFree | components/esp_http_server/src/httpd_sess.c:153-168 | a slot is found if and only if the count is below the maximum, and it is the first free one |
| HttpSess.Httpd.New | components/esp_http_server/src/httpd_sess.c:190-229 | fails if and only if the descriptor is known or the table is full, and otherwise changes one slot |
| HttpSess.Httpd.Delete | components/esp_http_server/src/httpd_sess.c:356-394 | frees one slot, and the counter starts over if and only if it was the last session |
| HttpSess.Httpd.Touch | components/esp_http_server/src/httpd_sess.c:423-460 | the session gets a counter above all others |
| HttpSess.Httpd.FindLowestLru | components/esp_http_server/src/httpd_sess.c:106-119 | in a full table, the first least counter among sessions not held by asynchronous requests |
| HttpSess.Httpd.CloseLruDirect | components/esp_http_server/src/httpd_sess.c:504-520 | closes that one; every other eligible session was opened or last used later if and only if none with the same counter is older, and so whenever it ever finished a request |
| HttpSess.OldestIffNoOlderTwin | components/esp_http_server/src/httpd_sess.c:106-119 | of the least counters the first is the oldest if and only if no eligible session with the same counter is older; always if it has finished a request or shares its counter with none |
| HttpSess.Httpd.CloseAll | components/esp_http_server/src/httpd_sess.c:495-502 | no session and no count is left |
| HttpSess.Httpd.AcceptConn | components/esp_http_server/src/httpd_main.c:54-143 | a connection is accepted only when there is a slot for it |
| HttpSess.Httpd.Server | components/esp_http_server/src/httpd_main.c:276-329 | however sessions come and go in one turn of the loop, no accepted connection fails for lack of a slot |
| HttpSess.NewcomerIsClosed | components/esp_http_server/src/httpd_sess.c:205-214 | a run in which the newest session is closed and one used before it arrived is kept |
| HttpUri.MatcherIsTheLanguage | components/esp_http_server/src/httpd_uri.c:18-81 | the matchers accept exactly the documented template language, for every template and URI |
| HttpUri.OwnTextMatches | components/esp_http_server/src/httpd_uri.c:24-81 | a template matches its own text if and only if it is well formed and does not end in a lone question mark |
| HttpUri.Table.Find | components/esp_http_server/src/httpd_uri.c:85-124 | the first entry that serves URI and method; none with 405 if some entry has the URI and with 404 if none has |
| HttpUri.Table.Register | components/esp_http_server/src/httpd_uri.c:126-195 | appends, or refuses for exactly the two reasons it has, and hides no entry |
| HttpUri.Table.Unregister | components/esp_http_server/src/httpd_uri.c:197-235 | removes the first entry of that URI and method and closes the gap in order |
| HttpUri.Table.UnregisterUri | components/esp_http_server/src/httpd_uri.c:237-278 | a stable filter: all entries of the URI go, the others stay in order |
| HttpUri.WithoutKeeps | components/esp_http_server/src/httpd_uri.c:237-278 | what the filter keeps, both directions |
| HttpUri.OwnEntryFound | components/esp_http_server/src/httpd_uri.c:126-145 | an entry whose text is in its own language is the one found for it |
| HttpUri.EveryPathServed | main/web_server.c:583-590 | with the wildcard for any method in the table no path starting with a slash gets a 404 or a 405 |
| HttpUri.RegisteredTwice | components/esp_http_server/src/httpd_uri.c:136-145 | one template registered twice |
| DnsFormat.NameRoundTrip | main/dns_server.c:236-289 | a name of any labels of 1 to 63 octets reads back wherever it stands |
| DnsFormat.NameFrame | main/dns_server.c:353-389 | a name without pointers depends on its own octets only, so it survives the rewriting of the header |
| DnsServer.NameIsSkipped | main/dns_server.c:236-276 | the scan of the question ends where a well-formed name does |
| DnsServer.ReplySays | main/dns_server.c:215-399 | every reply is a message with the query's ID and RD; with a question in it, it can be read if and only if the question's name does not end in a pointer, and then says what it should |
| DnsServer.SkippedIsNameIffNoPointer | main/dns_server.c:236-276 | a name the scan gets past can be read by RFC 1035 if and only if it does not end in a compression pointer |
| DnsServer.PointerQueryUnreadable | main/dns_server.c:236-276 | a query of eighteen octets whose answer cannot be read |
| DnsServer.AddressQueryAnswered | main/dns_server.c:331-375 | for any name and any trailing octets, an address query is answered by one record for that name with TTL 60 and the access point's address, if and only if there is an address and the reply fits |
| DnsTask.Task.ScanName | main/dns_server.c:236-276 | the loop over the buffer ends, stays in bounds and computes the end of the name |
| DnsTask.Task.Respond | main/dns_server.c:215-399 | the buffer rewritten in place is the reply called for, and at most one is sent |
| DnsTask.Task.Datagram | main/dns_server.c:192-399 | any datagram: ignored, counted, limited or answered, with the window moved on |
| DnsTask.Task.Serve | main/dns_server.c:166-399 | over any trace, replies between two datagrams are at most the datagrams admitted between them |
| DnsTask.AdmittedByWindows | main/dns_server.c:200-213 | no window admits more than the limit |
| DnsTask.RateBound | main/dns_server.c:200-213 | at most LIMIT * (T / 1000001 + 2) answers in any T microseconds of any monotone trace, error replies included |
| DnsTask.TwiceInASecond | main/dns_server.c:200-213 | at most twice the limit in any second |

## Left out

- Initialisation, identification, locking and the ioctl arithmetic of the SD driver (components/sd_spi_driver/diskio_sd_spi.c:415-578, 683-1051): they lead to the state the model starts from.
- SdSpi.Driver.SendCmd: command frames and answers travel undisturbed, since the firmware checks nothing on an answer; the stuff octet after CMD12 is not modelled; of the commands only those that read and write are.
- SdSpi.Driver.Read: the data is promised with CRC verification on, or with lines that do not disturb; a disturbance is a burst of at most 16 bits in one block, the kind the CRC is sure to catch.
- SdSpi.Driver.RcvrDataBlock: the two CRC octets are read left to right, an order that C leaves open.
- The mutex of the SD driver is an input of Read and Write: waiting for it works or does not.
- HttpParse.HttpdReq.constructor: the limits on URI and headers are at least one block of 128 octets, as in the default configuration; with smaller ones a pause could put back more than is read again at once.
- HttpStream.HttpParser.NextEvent: http_parser's tables are not part of this model; it is an oracle that eats the stream once, in order, and reports what it meets in as many pieces as it likes. Header names have no colon, values no NUL and no folding, and chunked request bodies are not modelled.
- HttpParse.HttpdReq.ParseReq: that a parse succeeds is promised for a kind parser and a prompt peer; a parser that gives up, or timeouts, end it otherwise. Of requests without headers it is promised for those that fit a block from the URL on, with all that is sent after them.
- Running out of memory is left out everywhere, as are the open_fn and close_fn hooks, asynchronous request copies, and events posted to the application.
- Query strings, cookies, raw request data and the responses other than chunked ones are not modelled; they are loops of the same kinds as those that are.
- HttpSend.Wire.Send: a send never reports zero octets.
- HttpSend.Response.SendHead: the status line is taken as rendered by snprintf(), with its length limit.
- WsServer.WsReq.SendFrame: success does not promise that the frame is on the wire unless the transport takes all it is given, because the count a send returns is not looked at.
- WsServer.WsReq.RecvHeader: lengths are kept modulo 2^32, the width of size_t, and frames are taken to be shorter.
- The WebSocket handshake is not modelled.
- LifecycleRuns.NoLostWakeup: nothing is promised once a command was dropped, a station list failed or a Connected event was lost between count and clear; WakeupCanBeLost shows the last, and the others drop the wakeup itself.
- That a DNS socket is closed at all is not claimed: when a stop runs before the DNS task publishes its descriptor, nobody closes it then.
- The bit SERVERS_STOPPED, which nothing reads, the random jitter, and the tasks whose done bits only free_proc() looks at are not modelled, but for their bits.
- HttpSess.Httpd.ProcessCtrlMsg: a control message may close any one session; the queued variant of the LRU close is covered only so far, since its work items name slots that may have been reused.
- HttpSess.Httpd.Touch: the 64-bit counter is unbounded here.
- The token accounting of the control socket, channel scoring, battery and buzzer tasks, MIME types and captive-portal lists are left out as they add no hard claim.
- HttpUri.Table.Register: copying strings and WebSocket settings into an entry is not modelled; an entry is its URI, its method and an identity.
- DnsFormat.Decode: reads messages without authority and additional records, the only ones the server sends.
- Clocks, GPIO, SPI registers, logging, FatFs, lwIP and FreeRTOS are not part of this model.
