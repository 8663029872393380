# LPCUSBSIO host library — a Dafny model

NXP's LPCUSBSIO library lets a host drive the I2C, SPI and GPIO ports of an
LPC-Link2 or MCU-Link bridge over USB HID. Every API call turns into a
*request*. A request is split into fixed-size HID reports, each stamped with
the device's transaction id, a session (port) number and a request code. The
reply fragments are then read back until the final fragment arrives. The
library also keeps a process-wide registry of open devices, their port slots
and the HID enumeration cursors it hands out. A Python binding wraps the C
API; it builds option words, selects SPI slave devices and tracks open ports.

This project models:

- **The transport** (`SIO_SendRequest`):
  - splitting a payload into reports (`Fragmentation`)
  - the read loop that reassembles the reply, including stale-report
    discard, firmware error conversion and timeout (`Reassembly`)
  - the whole locked exchange with its transaction-id bookkeeping
    (`Transport`)
- **Error codes and messages**: `ConvertResp`, `GetErrorString` and the
  header's three error bands (`Errors`).
- **The registry** (`Registry`):
  - `validHandle`, `validPortHandle`, `freeDevice`, `LibCleanup`
  - `GetDevAtIndex` and the product-string filter of
    `LPCUSBSIO_GetNumPorts`
- **Device and port life cycle**:
  - opening and closing devices: `LPCUSBSIO_Open`, `LPCUSBSIO_Close`,
    `LPCUSBSIO_GetDeviceInfo` (`Lifecycle`)
  - opening and closing I2C and SPI ports (`Ports`)
- **The data calls**: `I2C_DeviceRead/Write/FastXfer/Reset`,
  `SPI_Transfer/Reset` and the GPIO calls (`Command`, `I2c`, `Spi`, `Gpio`),
  with the mask pairs the GPIO calls send (`GpioMasks`).
- **The HID enumeration cursor**: `HIDAPI_Enumerate`, `Next`, `Rewind` and
  `Free` (`HidEnum`).
- **The Python binding**:
  - the option-word builders and `PRE/POST_DELAY` (`PyOptions`)
  - the SPI device byte, the `GetNumPorts` probe, the `_ports_open`
    bookkeeping and the error constants (`PyWrapper`)

How the environment is represented:

- **HID I/O** is a script (`Protocol.Env`). It holds whether the device mutex
  can be taken and released, the result of each `hid_write`, and the result
  of each `hid_read_timeout`.
- **Packet geometry** comes from the firmware's protocol header, which is not
  part of this model. `HID_SIO_PACKET_SZ`, `HID_SIO_PACKET_HEADER_SZ`,
  `HID_SIO_PACKET_DATA_SZ` and `HID_SIO_CALC_TRANSFER_LEN` are therefore a
  `Geometry` parameter. The byte layouts of the I2C and SPI parameter blocks
  are a `Layout` parameter.
- **Allocation** is the registry handing out fresh ids.
- **Integer widths**:
  - Transaction ids are `uint8` and wrap with `% 256`.
  - Port masks are `bv32`.
  - A GPIO pin index is `bv5`, so pins are 0..31.

On two points the code and its documentation disagree; the model follows the
code there:

- `SIO_SendRequest` returns 0 on success and passes the byte count back through
  `*inLen`. It does not return the count.
- `HIDAPI_EnumerateFree` does not call `LibCleanup`, so releasing the last
  cursor leaves the HID library initialised. The library is shut down only
  when a later `freeDevice` runs the cleanup.

Where the code itself is wrong (see "## Findings"), each defect is modelled
twice: once as written, with a lemma that exhibits it, and once corrected.
The data calls and the device and port life cycle are built on the corrected
definitions: the membership handle check `Registry.ValidHandle`, the open-port
check `Registry.ValidPort`, the bounded `Transport.SendRequest` and the bounded
build text of `Lifecycle.ParseDevInfo`. "## Left out" names, member by member,
what the source does instead on the inputs where the two differ.

## Model

| member | source | states |
|---|---|---|
| Base.Zeros | src/lpcusbsio.c:350-351 | `n` bytes, all zero: the padding a short copy leaves |
| Base.Le32 | src/lpcusbsio.c:443-444 | a 32-bit word is four bytes |
| Base.Le32RoundTrip | src/lpcusbsio.c:443-444 | reading back the four bytes of a word gives the word |
| Base.FromLe32RoundTrip | src/lpcusbsio.c:452 | encoding the word read from four bytes gives the bytes |
| Errors.CodesLieInTheirBands | include/lpcusbsio.h:103-138 | every error code is negative, and the library, I2C-firmware and bridge codes occupy [-5,-1], [-0x15,-0x11] and [-0x23,-0x20] |
| Errors.CodesAreDistinct | include/lpcusbsio.h:103-138 | no two error names share a code |
| Errors.ConvertResp | src/lpcusbsio.c:275-286 | response 0 and only 0 converts to OK; any other response lands in [-0x10F,-0x11] |
| Errors.ConvertRespInjective | src/lpcusbsio.c:275-286 | the response code can be recovered from a converted failure |
| Errors.ConvertedFailuresAreNotLibraryErrors | src/lpcusbsio.c:275-286 | a converted firmware failure never equals a library error code |
| Errors.FirmwareCodesAreConvertedResponses | include/lpcusbsio.h:117-127 | the firmware band is exactly the conversions of responses 1..5 |
| Errors.ErrorMessage | src/lpcusbsio.c:255-273 | the magnitude picks the table (below 0x10, 0x20, 0x30) and the entry at the magnitude's offset in it; only an offset past the table's end selects its catch-all (entry 0, or the "Unsupported Error Code" entry of the bridge table); 0x30 and up reads as "no errors" |
| Errors.NamedErrorsGetTheirOwnMessage | src/lpcusbsio.c:104-128 | every named error gets the message written for it, and OK gets "No errors are recorded." |
| Errors.UnnamedResponsesFallBack | src/lpcusbsio.c:255-286 | responses 6..15 read "Firmware error.", 0x10..0x13 land on the bridge messages, 0x14..0x1F on "Unsupported Error Code", 0x20 and up on "No errors" |
| Fragmentation.FragmentCountIsCeiling | src/lpcusbsio.c:338-362 | a payload of n bytes takes ceil(n / DATA_SZ) reports, and one report for an empty payload |
| Fragmentation.Frame | src/lpcusbsio.c:339-351 | one report is well shaped, carries the request's header fields, has packet_len = HEADER_SZ + chunk length, and carries exactly the chunk |
| Fragmentation.FragmentsFrom | src/lpcusbsio.c:338-362 | the do-while loop always builds at least one report |
| Fragmentation.FragmentsFromCount | src/lpcusbsio.c:338-362 | the loop builds one report per DATA_SZ bytes |
| Fragmentation.FragmentsFromStamped | src/lpcusbsio.c:333-358 | reports are numbered in sequence and share the transaction id, session, request and transfer length |
| Fragmentation.FragmentsFromFull | src/lpcusbsio.c:339-346 | every report but the last is full, and the last is non-empty unless the payload is |
| Fragmentation.FragmentsFromCarry | src/lpcusbsio.c:350-357 | the carried bytes of the reports, in order, are the payload (split/join round trip) |
| Fragmentation.Fragments | src/lpcusbsio.c:333-362 | all reports of a request: the count, the stamps, the shapes, full-but-last, and the concatenation of carried bytes equal to the payload |
| Fragmentation.CarriedPrefix | src/lpcusbsio.c:338-362 | the reports written before a failure carry a prefix of the payload |
| Reassembly.FirstStop | src/lpcusbsio.c:369-414 | the first read result that ends the loop: all earlier ones keep it reading |
| Reassembly.Consumed | src/lpcusbsio.c:369-414 | the number of read results the loop takes: up to and including the first that ends it |
| Reassembly.Received | src/lpcusbsio.c:376-396 | reference definition of what the loop receives: each result's delivered bytes until one ends the loop |
| Reassembly.ReadPhase | src/lpcusbsio.c:364-414 | the loop only ever extends the gathered bytes; without a buffer it gathers nothing; with a checked buffer it never exceeds the capacity |
| Reassembly.UnboundedStep | src/lpcusbsio.c:376-414 | a result that keeps the loop reading adds its bytes; any other result ends the loop with its verdict |
| Reassembly.UnboundedStatus | src/lpcusbsio.c:364-414 | the loop's status is the verdict of the first result that ends it, or a timeout when the script runs out first |
| Reassembly.UnboundedData | src/lpcusbsio.c:386-391 | the gathered bytes are the earlier ones followed by what the consumed results deliver |
| Reassembly.ReceivedIsConsumedPayloads | src/lpcusbsio.c:376-396 | what the loop receives is exactly the payloads of the accepted reports among the consumed results, in order |
| Reassembly.CompletesIffFinalFragment | src/lpcusbsio.c:392-396 | the read completes with OK exactly when a matching OK report whose position plus length reaches the transfer length comes before anything else ends the loop |
| Reassembly.DiscardAgreesOnStatus | src/lpcusbsio.c:386-391 | a caller with no receive buffer sees the same status as one with a buffer |
| Reassembly.BoundedAgreesWhenItFits | src/lpcusbsio.c:386-391 | checking the capacity changes nothing when the reply fits |
| Reassembly.StaleReportIgnored | src/lpcusbsio.c:380-384 | a report with another transaction id is dropped as if never read |
| Reassembly.FragmentAppends | src/lpcusbsio.c:386-391 | a matching non-final OK fragment appends packet_len - HEADER_SZ bytes, and the loop reads on |
| Reassembly.LastChunk | src/lpcusbsio.c:339-346 | the last report carries at most DATA_SZ bytes, and at least one when the data is non-empty |
| Reassembly.ReplyFrom | src/lpcusbsio.c:338-362 | a reply split into OK reports of DATA_SZ bytes each, the last taking the rest, has one report per DATA_SZ bytes |
| Reassembly.EarlierReportNotFinal | src/lpcusbsio.c:392-396 | a report before the last does not pass the completion test |
| Reassembly.LastReportFinal | src/lpcusbsio.c:392-396 | the last report passes the completion test and delivers its bytes |
| Reassembly.ReplyFromRoundTrip | src/lpcusbsio.c:376-396 | the reports of a framed reply, read from any report on, reassemble into their data with OK |
| Reassembly.ReplyRoundTrip | src/lpcusbsio.c:338-396 | split then reassemble: a reply split by `ReplyFrom`, whose reports are framed as a request's (`ReplyFramedLikeRequest`), is read back as exactly its data, with OK |
| Reassembly.ReplyFromFramed | src/lpcusbsio.c:338-362 | from any report number on, the reply's reports match the request loop's reports one for one: same number, id, packet_len and carried bytes, and one transfer length on all |
| Reassembly.FramedAllAt | src/lpcusbsio.c:338-362 | a reply framed as a request, report for report, matches it at every position |
| Reassembly.LastFragmentLen | src/lpcusbsio.c:336-346 | the last report the request loop builds has a packet_len covering the last chunk of the data |
| Reassembly.TLenIsLastPosition | src/lpcusbsio.c:392-396 | a reply's transfer length is the position of the request loop's last report plus its packet_len |
| Reassembly.ReplyFromFramedEach | src/lpcusbsio.c:338-362 | the reports of a reply from number 0 on are framed as the request loop's reports for the same bytes, each carrying that transfer length |
| Reassembly.ReplyFramedLikeRequest | src/lpcusbsio.c:333-362 | a reply's reports are framed exactly as `Fragments` frames a request with the same bytes, and their transfer length is the last report's position plus its packet_len, the value the completion test at 392-396 looks for |
| Transport.SendFrom | src/lpcusbsio.c:338-362 | the send loop stops after the last report or after the first write that does not return a positive count, and the status is that write's result |
| Transport.Locked | src/lpcusbsio.c:326-423 | under the lock one transaction id is consumed and a non-empty prefix of the request's reports is written; a failed unlock gives SYNCHRONIZATION; a checked buffer never overflows |
| Transport.Perform | src/lpcusbsio.c:288-426 | the exchange with the argument check and the lock, shared by the as-written and the corrected request |
| Transport.LockedAgreesWhenItFits | src/lpcusbsio.c:386-391 | under the lock, a reply that fits the buffer makes the capacity check change nothing |
| Transport.SendRequestAsWritten | src/lpcusbsio.c:288-426 | the exchange as the source runs it: the status is never positive, and a send-only call receives nothing |
| Transport.SendRequest | src/lpcusbsio.c:288-426 | bad arguments give INVALID_PARAM and a lock failure gives SYNCHRONIZATION, both with nothing sent and the id unchanged; past the lock the id advances by one; the received bytes never exceed the caller's buffer |
| Transport.SuccessConsumesOneId | src/lpcusbsio.c:333 | a successful request leaves the transaction id advanced by exactly one, mod 256 |
| Transport.StampsEveryReport | src/lpcusbsio.c:333-358 | past the lock, every report written is the matching fragment of the request, stamped with the current id |
| Transport.SendStopsAtFailedWrite | src/lpcusbsio.c:354-369 | a write that does not return a positive count ends sending, nothing is read, and its result is the status |
| Transport.ZeroByteWriteReadsAsSuccess | src/lpcusbsio.c:354-369 | a write that reports 0 bytes is not a failure: nothing is read, and the exchange returns OK with no data |
| Transport.CompletesIffFinalFragmentArrives | src/lpcusbsio.c:364-414 | with every report written, the exchange is OK exactly when a matching final fragment arrives before anything else ends the read |
| Transport.RequestReceivesReply | src/lpcusbsio.c:288-426 | with every report written and a reply that fits, the caller receives exactly the reply's data with status OK |
| Transport.AsWrittenOverrunsTheBuffer | src/lpcusbsio.c:386-391 | as written, a 2-byte reply is copied whole into a 1-byte buffer |
| Transport.CheckedAgreesWhenReplyFits | src/lpcusbsio.c:386-391 | the corrected exchange and the one as written agree whenever the reply fits the buffer |
| Transport.NextIdOfCall | src/lpcusbsio.c:299-333 | a call advances the id by one exactly when it gets past the argument check and the lock |
| Transport.IdAfterByProceeding | src/lpcusbsio.c:299-333 | the id a series of calls leaves behind depends only on which of them got past the argument check and the lock |
| Transport.IdByProceedingCounts | src/lpcusbsio.c:299-333 | stepping the id once per proceeding call equals adding their count, mod 256 |
| Transport.IdCountsProceedingCalls | src/lpcusbsio.c:299-333 | over any series of calls the id advances by the number of calls that got past the checks and the lock, mod 256 |
| Registry.Initial | src/lpcusbsio.c:101 | the initial state satisfies the registry invariant and holds no devices and no cursors |
| Registry.WalkValidHandle | src/lpcusbsio.c:194-203 | the walk answers "registered" exactly for a listed handle and "not registered" exactly for NULL; any other handle walks off the list |
| Registry.ValidHandle | src/lpcusbsio.c:194-203 | the intended handle check: a handle is valid exactly when it is in the device list |
| Registry.WalkAgreesOrCrashes | src/lpcusbsio.c:194-203 | whenever the walk answers, it agrees with list membership; it dereferences NULL exactly for a non-null handle that is not listed |
| Registry.StaleHandleWalksOffTheList | src/lpcusbsio.c:198-200 | with no device open, checking any non-null handle dereferences NULL |
| Registry.SlotOf | src/lpcusbsio.c:205-224 | a port handle designates a slot only on a registered device |
| Registry.PortAddrAccepted | src/lpcusbsio.c:205-224 | `validPortHandle` as written: any address from a listed device's first I2C slot up to and including one past its last SPI slot |
| Registry.ValidPort | src/lpcusbsio.c:205-224 | the intended port check: an open slot of the expected kind on a listed device |
| Registry.ValidPortIsAccepted | src/lpcusbsio.c:212-216 | every open port of the expected kind passes the address-range check |
| Registry.FreshDevice | src/lpcusbsio.c:578-582 | a newly allocated device with every slot free is well formed under any id |
| Registry.OneDevice | src/lpcusbsio.c:585-587 | a registry holding a single device with no open port satisfies the invariant |
| Registry.PortCheckTooPermissive | src/lpcusbsio.c:212-216 | the address-range check accepts a closed I2C slot, an SPI slot offered as I2C, and the address one past the last SPI slot |
| Registry.GetDevAtIndex | src/lpcusbsio.c:179-192 | there is an entry exactly when the index is below the list length, and it is the entry at that index |
| Registry.KeepSio | src/lpcusbsio.c:502-530 | the filter keeps no more entries than it was given, and every kept entry passes the product-string test |
| Registry.KeepSioMembers | src/lpcusbsio.c:508-524 | an entry is kept exactly when it was enumerated and its product string starts with "LPCSIO" or "MCUSIO" |
| Registry.KeepSioCount | src/lpcusbsio.c:525-533 | the count returned is the number of entries that pass the test |
| Registry.GetNumPorts | src/lpcusbsio.c:475-535 | only the retained list and the library flag change; the count is the length of the new list; the list holds exactly the enumerated entries that pass the test |
| Registry.LibCleanup | src/lpcusbsio.c:1382-1392 | the HID library shuts down exactly when no enumeration list and no cursor is held, and nothing else changes |
| Registry.Remove | src/lpcusbsio.c:230-240 | unlinking keeps exactly the other devices |
| Registry.RemoveKeepsDistinct | src/lpcusbsio.c:230-240 | unlinking keeps the list free of duplicates |
| Registry.FreeDevice | src/lpcusbsio.c:226-253 | the invariant is kept; exactly the device leaves the list; the others are untouched; when the list empties the retained list goes and the library shuts down unless a cursor is held |
| Registry.FreeDeviceDrops | src/lpcusbsio.c:226-253 | freeing removes exactly that id from the list and the map |
| Registry.UpdateKeepsInv | src/lpcusbsio.c:288-426 | replacing a registered device by a well-formed one keeps the registry invariant |
| Registry.Transact | src/lpcusbsio.c:288-426 | one request on a device: the device keeps the id the exchange leaves behind, nothing else changes, and the invariant holds |
| Lifecycle.GetDeviceInfo | src/lpcusbsio.c:537-559 | OK with the entry exactly when the index is in the retained list; BAD_HANDLE otherwise |
| Lifecycle.UpToNul | src/lpcusbsio.c:629-632 | the C string in a buffer is a prefix with no zero byte, stopped by a zero when shorter |
| Base.Major | src/lpcusbsio.c:629-631 | the high half of the version word, `fwVersion >> 16`, below 0x10000 |
| Base.Minor | src/lpcusbsio.c:629-631 | the low half of the version word, `fwVersion & 0xFFFF`, below 0x10000 |
| Lifecycle.BuildText | src/lpcusbsio.c:629-632 | the text `"FW %d.%d %s"` formats, without its terminating zero |
| Lifecycle.BuildRoom | src/lpcusbsio.c:47 | the characters left for the text after the version prefix and before the zero in the MAX_FWVER_STRLEN bytes of `fwBuild` |
| Lifecycle.ClipBuild | src/lpcusbsio.c:624-632 | the stored text is a prefix of the reply's text whose formatted build text fits `fwBuild`, and the whole text when that fits |
| Lifecycle.ClippedBuildIsTruncation | src/lpcusbsio.c:624-632 | the clipped build text is the full formatted text cut to MAX_FWVER_STRLEN - 1 characters, as `snprintf` with the field's size leaves it |
| Lifecycle.WithFields | src/lpcusbsio.c:616-632 | filling in the reply's fields keeps the device's identity, id and port slots |
| Lifecycle.ParseDevInfoAsWritten | src/lpcusbsio.c:610-639 | as written: the whole C string after byte 12 goes into the build text, with no bound |
| Lifecycle.ParseAsWrittenKeepsWholeText | src/lpcusbsio.c:629-632 | as written, a device-info reply whose build text has no zero byte leaves the firmware version's two halves and that whole text in `fwBuild`, whatever its length |
| Lifecycle.BuildTextOverflows | src/lpcusbsio.c:629-632 | as written, a 53-character build text from firmware 0.0 formats to 60 characters, one more with its zero than `fwBuild` holds; the corrected parse keeps the first 59 |
| Lifecycle.ParseAgreesWhenBuildFits | src/lpcusbsio.c:610-639 | the corrected and as-written parses agree whenever the formatted build text fits `fwBuild` |
| Lifecycle.ParseDevInfo | src/lpcusbsio.c:610-639 | corrected: parsing keeps the device's identity, id and port slots; a failed exchange leaves only "FW Ver Unavailable"; a successful reply of twelve bytes or more stores a prefix of the reply's C string whose formatted build text fits `fwBuild` with its terminating zero |
| Lifecycle.DevInfoBytes | src/lpcusbsio.c:610-639 | a device-info reply is 12 bytes of fields followed by the build text |
| Lifecycle.ParseDevInfoRecovers | src/lpcusbsio.c:610-639 | parsing a successful reply recovers every field the device sent: port counts, maximum data size, firmware version, and the build text cut to what `fwBuild` holds, whole when it fits |
| Lifecycle.DevInfoFields | src/lpcusbsio.c:616-621 | the byte offsets of each field in the reply |
| Lifecycle.UpToNulWhole | src/lpcusbsio.c:629-632 | text without a zero byte is read whole |
| Lifecycle.DevInfoExchange | src/lpcusbsio.c:610-614 | the device-info exchange never returns a positive status and receives at most DEV_INFO_LEN bytes |
| Lifecycle.Insert | src/lpcusbsio.c:585-587 | a new device goes to the head of the list under an unused id, keeping the invariant and the list free of duplicates |
| Lifecycle.Registered | src/lpcusbsio.c:585-647 | a registered device gets the fresh id as its handle, the parsed device info, and the exchange's status as last error |
| Lifecycle.OpenAsWritten | src/lpcusbsio.c:561-647 | as written: a handle is returned exactly when the index exists, the HID open succeeds and the mutex is created; without an entry or a HID device nothing changes |
| Lifecycle.Open | src/lpcusbsio.c:561-647 | as intended: a handle exactly when the index exists, HID open and mutex succeed; any failure leaves the registry unchanged; a mutex failure records MUTEX_CREATE |
| Lifecycle.MutexFailureLeavesStaleDevice | src/lpcusbsio.c:601-608 | as written, a mutex failure returns no handle but leaves a registered device no caller can reach |
| Lifecycle.OpenAgreesUnlessMutexFails | src/lpcusbsio.c:561-647 | the intended open is the open as written whenever the mutex is created |
| Lifecycle.FailedDevInfoStillOpens | src/lpcusbsio.c:610-639 | a failed device-info exchange still opens the device, with the build text "FW Ver Unavailable" and transaction id 1 |
| Lifecycle.OpenReadsDevInfo | src/lpcusbsio.c:610-639 | a device that answers with its info reply is opened with exactly those port counts, sizes and version, and with the build text cut to what `fwBuild` holds, whole when it fits |
| Lifecycle.BoundFrom | src/lpcusbsio.c:661-674 | the collected ports are exactly the bound slots in the range |
| Lifecycle.OpenPortsOf | src/lpcusbsio.c:661-674 | the ports a device close shuts are exactly its bound I2C and SPI slots below the reported counts |
| Lifecycle.CloseEach | src/lpcusbsio.c:661-674 | closing the ports one by one changes only the device being closed and keeps the invariant |
| Lifecycle.Close | src/lpcusbsio.c:649-688 | an unregistered handle gives BAD_HANDLE and changes nothing; otherwise every open port is closed, the device is freed and the result is OK |
| Lifecycle.RemoveAbsent | src/lpcusbsio.c:230-240 | unlinking an absent device changes nothing |
| Lifecycle.NoOpenPorts | src/lpcusbsio.c:661-674 | a device with all slots free has no port to close |
| Lifecycle.BoundFromNone | src/lpcusbsio.c:661-674 | no bound slot in range, no port |
| Lifecycle.CloseIdle | src/lpcusbsio.c:649-688 | closing a device with no open port only frees it |
| Lifecycle.FreeInserted | src/lpcusbsio.c:226-253 | freeing a device just inserted gives back the list and the map |
| Lifecycle.OpenThenCloseForgets | src/lpcusbsio.c:561-688 | opening a device and closing it again restores the device list and the device map |
| Command.OpenPortIsSession | src/lpcusbsio.c:205-224 | an open port designates a registered device and a session number below 8 |
| Command.PortExchange | src/lpcusbsio.c:288-426 | a data call's exchange runs on the port's session, and its device keeps the id the exchange leaves |
| Command.ReceiveResult | src/lpcusbsio.c:853-857 | on OK the call returns the received count and copies out exactly those bytes; on failure the error and nothing |
| Command.Rejected | src/lpcusbsio.c:837-842 | a call rejected by its argument checks returns its code and changes nothing |
| Command.Supplied | src/lpcusbsio.c:899-906 | a send takes exactly the first size bytes of the caller's buffer, none when there is no buffer |
| Ports.WithSlot | src/lpcusbsio.c:789-792 | replacing one slot changes that slot and nothing else of the device |
| Ports.WithSlotOk | src/lpcusbsio.c:789-792 | binding a slot to its own device and index, or freeing it, keeps the device well formed |
| Ports.PortLimit | src/lpcusbsio.c:779 | the usable port count is at most the eight slots a device holds |
| Ports.OpenRejected | src/lpcusbsio.c:779 | `I2C_Open`/`SPI_Open` reject an unknown device, a missing configuration and a port number at or above the device's count |
| Ports.AfterPortRequest | src/lpcusbsio.c:783-812 | after a port request the device has the exchange's id, and the slot changes only if the exchange succeeded |
| Ports.AfterPortRequestFrame | src/lpcusbsio.c:783-812 | a port request changes nothing of the device but its id and its slots |
| Ports.PortRequestKeepsInv | src/lpcusbsio.c:783-812 | a port request keeps the invariant; the slot holds the new state on success and the old one on failure |
| Ports.RequestStateInv | src/lpcusbsio.c:783-812 | a port request keeps the registry invariant |
| Ports.RequestStateSlot | src/lpcusbsio.c:783-812 | the slot after a port request: the new state on success, the old one on failure |
| Ports.PortOpen | src/lpcusbsio.c:771-798 | rejected arguments give INVALID_PARAM and no change; otherwise an init request on the port's session; a returned handle designates that slot, now open |
| Ports.PortClose | src/lpcusbsio.c:800-813 | a handle that is not an open port of its kind gives BAD_HANDLE and no change; otherwise a deinit request, and the slot is freed only on OK |
| Ports.CloseFrame | src/lpcusbsio.c:800-813 | closing a port changes only that port's device |
| Ports.OpenThenCloseRestores | src/lpcusbsio.c:771-813 | opening a free port and closing it, both succeeding, restores the state except that the device's id advanced by two |
| Ports.AfterSuccess | src/lpcusbsio.c:783-812 | after a successful exchange that consumed one id, the device is the one with the slot set and the id advanced |
| Ports.OpenSucceeded | src/lpcusbsio.c:771-798 | a successful port open binds the slot and advances the device's id by one |
| Ports.CloseSucceeded | src/lpcusbsio.c:800-813 | a successful port close was on an open port; it frees the slot and advances the device's id by one |
| Ports.SuccessAdvances | src/lpcusbsio.c:783-812 | the state after a successful single-id exchange is the one with the device advanced |
| Ports.ComposeStates | src/lpcusbsio.c:771-813 | binding a free slot and then freeing it leaves only the device's id changed |
| Ports.DeviceRoundTrip | src/lpcusbsio.c:771-813 | on one device, binding a free slot and then freeing it advances the id by two and changes nothing else |
| I2c.DeviceRead | src/lpcusbsio.c:816-867 | a bad port gives BAD_HANDLE and a rejected argument INVALID_PARAM, with no change; a success returns the byte count, at most the size asked for, with exactly those bytes |
| I2c.RwRejected | src/lpcusbsio.c:837-842 | the read and write checks: a size above the device maximum, a missing buffer for a non-empty transfer, an address above 127 |
| I2c.ReadIsOneExchange | src/lpcusbsio.c:843-852 | a read past the checks is one exchange with the parameter block as payload and a size-byte receive buffer |
| I2c.ReadDeliversReply | src/lpcusbsio.c:816-867 | read round trip: a device answering with data of at most size bytes gives the caller exactly that data and its length |
| I2c.DeviceWrite | src/lpcusbsio.c:869-920 | a bad port gives BAD_HANDLE and a rejected argument INVALID_PARAM, with no change; a success returns the size written and copies nothing out |
| I2c.WriteCarriesData | src/lpcusbsio.c:895-906 | the write's reports carry the parameter block followed by exactly the size data bytes of the buffer |
| I2c.XferResult | src/lpcusbsio.c:961-972 | on OK the received count with its bytes, or the transmit count when nothing came back; otherwise the error |
| I2c.FastXfer | src/lpcusbsio.c:922-982 | a bad port gives BAD_HANDLE and a rejected argument INVALID_PARAM; at most rxLength bytes are copied out; a success returns the received count or the transmit count |
| I2c.EmptyReplyReadsAsTransmitCount | src/lpcusbsio.c:961-972 | a read that gets OK with no bytes returns the transmit count, as a transmit-only transfer would |
| I2c.XferRejected | src/lpcusbsio.c:939-944 | the fast-transfer checks: either length above the device maximum, a missing buffer for a non-empty direction, an address above 127 |
| I2c.FastXferCarriesData | src/lpcusbsio.c:946-958 | the fast transfer's reports carry the parameter block followed by exactly the txLength bytes to transmit |
| I2c.FastXferDeliversReply | src/lpcusbsio.c:922-982 | fast-transfer round trip: a device answering with 1 to rxLength bytes gives the caller exactly that data and its length |
| I2c.Reset | src/lpcusbsio.c:984-1000 | a bad port gives BAD_HANDLE; otherwise a reset request whose status is the result, never positive |
| Spi.Transfer | src/lpcusbsio.c:1054-1111 | a bad port gives BAD_HANDLE and a rejected argument INVALID_PARAM; a success returns the received count, at most the length, with exactly those bytes |
| Spi.XferRejected | src/lpcusbsio.c:1071-1075 | the transfer checks: a length above the device maximum, or a non-empty transfer missing either buffer |
| Spi.TransferDeliversReply | src/lpcusbsio.c:1054-1111 | transfer round trip: a device answering with at most length bytes gives the caller exactly that data and its length |
| Spi.TransferCarriesData | src/lpcusbsio.c:1080-1093 | the transfer's reports carry the parameter block followed by exactly the length bytes to transmit |
| Spi.Reset | src/lpcusbsio.c:1113-1132 | a bad port gives BAD_HANDLE; otherwise a reset request whose status is the result, never positive |
| Gpio.CmdPayload | src/lpcusbsio.c:428-463 | the command payload is eight bytes |
| Gpio.CmdPayloadRoundTrip | src/lpcusbsio.c:443-444 | the firmware reads the set mask and the clear mask back from the payload |
| Gpio.FullReplyIsStatus | src/lpcusbsio.c:447-453 | a full 4-byte reply is the status word, whatever the buffer held before |
| Gpio.StatusWord | src/lpcusbsio.c:447-453 | the status word read from the 4-byte buffer: the received bytes, then what the buffer held before |
| Gpio.SendCmd | src/lpcusbsio.c:428-463 | an unregistered handle gives BAD_HANDLE; the result is at most 4; a status word is written exactly when the result is positive |
| Gpio.RequestOf | src/lpcusbsio.c:1135-1198 | the direction calls go out as port-direction requests, all others as port-value requests |
| Gpio.PortCall | src/lpcusbsio.c:1135-1198 | each port or pin call hands a status word back only when it is a reading call (or WritePort) and the result is positive |
| Gpio.GetPin | src/lpcusbsio.c:1183-1192 | a positive read becomes the pin's level, 0 or 1; otherwise the read's result is returned |
| Gpio.EmptyReplyReadsAsLowPin | src/lpcusbsio.c:1183-1192 | an OK read with no data returns 0, the same as a low pin |
| Gpio.TogglePin | src/lpcusbsio.c:1200-1215 | an unregistered handle gives BAD_HANDLE; otherwise a one-byte request whose status is the result, never positive |
| Gpio.ConfigPayload | src/lpcusbsio.c:1217-1236 | the configuration payload is five bytes |
| Gpio.ConfigPayloadRoundTrip | src/lpcusbsio.c:1227-1231 | the firmware reads the mode and the pin back from the payload |
| Gpio.ConfigIOPin | src/lpcusbsio.c:1217-1236 | an unregistered handle gives BAD_HANDLE; otherwise a configuration request whose status is the result, never positive |
| GpioMasks.PinMaskBits | include/lpcusbsio.h:664 | a pin mask has its own bit and no other |
| GpioMasks.MaskPair | src/lpcusbsio.c:1135-1198 | the (set, clear) masks each port and pin call sends |
| GpioMasks.Apply | src/lpcusbsio.c:428-463 | what a (set, clear) pair asks of a port register: set pins become 1, cleared pins 0 |
| GpioMasks.IntendedBit | include/lpcusbsio.h:547-703 | reference definition, pin by pin, of what each port and pin call is documented to leave |
| GpioMasks.Intended | include/lpcusbsio.h:547-703 | the register each call is documented to leave, every pin at its intended value |
| GpioMasks.MaskTestIsBit | src/lpcusbsio.c:1189 | testing a word against a pin mask reads that pin's bit |
| GpioMasks.PinLevel | src/lpcusbsio.c:1183-1192 | the pin level is 1 exactly when the pin's bit is set, otherwise 0 |
| GpioMasks.ApplyOneSided | src/lpcusbsio.c:1148-1158 | an empty clear mask only sets pins; an empty set mask only clears them |
| GpioMasks.ApplyComplement | src/lpcusbsio.c:1141-1146 | a value and its complement as the mask pair write the value |
| GpioMasks.ReadsMean | src/lpcusbsio.c:1135-1139 | the reading calls send masks that change nothing |
| GpioMasks.WriteMeans | src/lpcusbsio.c:1141-1146 | WritePort's masks make every pin follow the value |
| GpioMasks.SetPinsMean | src/lpcusbsio.c:1148-1169 | SetPort and SetPortOutDir set exactly the named pins and keep the rest |
| GpioMasks.ClearPinsMean | src/lpcusbsio.c:1154-1175 | ClearPort and SetPortInDir clear exactly the named pins and keep the rest |
| GpioMasks.OrPinBit | src/lpcusbsio.c:1177-1181 | or-ing in a pin mask sets that pin and keeps the others |
| GpioMasks.AndNotPinBit | src/lpcusbsio.c:1194-1198 | masking out a pin clears that pin and keeps the others |
| GpioMasks.SetPinMeans | src/lpcusbsio.c:1177-1181 | SetPin sets its pin and only it |
| GpioMasks.ClearPinMeans | src/lpcusbsio.c:1194-1198 | ClearPin clears its pin and only it |
| GpioMasks.MasksMeanTheirCall | src/lpcusbsio.c:1135-1198 | every port and pin call's mask pair has the effect the call's documentation promises, pin by pin |
| HidEnum.Enumerate | src/lpcusbsio.c:1243-1265 | the library is initialised; without memory no cursor is kept and no handle returned; otherwise a fresh cursor at the first entry heads the chain; devices are untouched |
| HidEnum.Next | src/lpcusbsio.c:1267-1303 | answers 1 exactly when the cursor has an entry left, handing it out and moving past it; otherwise 0 and no change |
| HidEnum.Rewind | src/lpcusbsio.c:1305-1313 | answers 1 exactly for a cursor with entries, putting it back at the first one; otherwise 0 and no change |
| HidEnum.Free | src/lpcusbsio.c:1315-1342 | answers 1 exactly for a handle on the chain, unlinking and releasing it; otherwise 0 and no change |
| HidEnum.Walk | src/lpcusbsio.c:1267-1303 | walking keeps the cursor live |
| HidEnum.WalkHandsOutInOrder | src/lpcusbsio.c:1267-1303 | n steps from the cursor hand out the next n entries in order and leave it n further on |
| HidEnum.NextStep | src/lpcusbsio.c:1272-1287 | one step hands out the entry under the cursor and moves it by one |
| HidEnum.EnumerateThenWalk | src/lpcusbsio.c:1243-1303 | a fresh cursor walked to its end hands out the enumeration exactly, and the next call answers 0 |
| HidEnum.RewindRestarts | src/lpcusbsio.c:1305-1313 | after a rewind the next call hands out the first entry again |
| HidEnum.EnumerateThenFree | src/lpcusbsio.c:1243-1342 | releasing a fresh cursor restores the chain; releasing it again answers 0 |
| HidEnum.UnchainFresh | src/lpcusbsio.c:1315-1342 | unlinking a cursor just put at the head of the chain gives back the chain and the cursor table |
| HidEnum.HeldCursorBlocksCleanup | src/lpcusbsio.c:1382-1392 | while a cursor is held, LibCleanup refuses to shut the library down |
| PyOptions.TransferFlagsAreDistinctBits | python/libusbsio/libusbsio.py:80-89 | the I2C transfer flags and the fast-transfer flags are single, distinct bits |
| PyOptions.SpiFieldsAreDisjoint | python/libusbsio/libusbsio.py:91-101 | the SPI polarity and phase bits, the data-size field and the two delay fields do not overlap |
| PyOptions.Placed | python/libusbsio/libusbsio.py:98-101 | a value placed in a field holds exactly its bits, shifted into that field |
| PyOptions.SetIf | python/libusbsio/libusbsio.py:726-738 | `options \|= flag` under a condition: adds the flag when on, touches no other bit, and changes nothing when off |
| PyOptions.FillIfZero | python/libusbsio/libusbsio.py:950-955 | a field already set is kept; an empty field takes the value; the bits outside the field are kept |
| PyOptions.NormalXferOptions | python/libusbsio/libusbsio.py:726-738 | each flag is set exactly when asked for or already set (break-on-NACK when NACKs are not ignored), and every other bit is the caller's |
| PyOptions.FastXferOptions | python/libusbsio/libusbsio.py:740-746 | IGNORE_NACK is set exactly when asked for or already set, LAST_RX_ACK exactly when the last byte is not NACKed or already set; other bits are the caller's |
| PyOptions.PreDelay | python/libusbsio/libusbsio.py:98-99 | the pre-delay lies entirely in bits 8..15 |
| PyOptions.PostDelay | python/libusbsio/libusbsio.py:100-101 | the post-delay lies entirely in bits 16..23 |
| PyOptions.DataSizeCode | python/libusbsio/libusbsio.py:950-951 | the data-size code lies entirely in bits 0..3 |
| PyOptions.SpiClockBits | python/libusbsio/libusbsio.py:946-949 | polarity and phase bits are set exactly when asked for or already set; other bits are the caller's |
| PyOptions.SpiFillFields | python/libusbsio/libusbsio.py:950-955 | each of the three fields keeps what it holds, or takes its default when empty; bits outside the fields are the caller's |
| PyOptions.SpiOpenOptions | python/libusbsio/libusbsio.py:944-956 | the SPI open word: clock bits as asked or already set, each field kept or defaulted, every other bit the caller's |
| PyOptions.DelayMacrosGiveFields | python/libusbsio/libusbsio.py:98-101 | PRE_DELAY(0xff) and POST_DELAY(0xff) are exactly the delay fields the emptiness tests use |
| PyOptions.DataSizeDefaults | python/libusbsio/libusbsio.py:92-93 | a data size of 8 gives DATA_SIZE_8 and 16 gives DATA_SIZE_16 |
| PyOptions.DelaysWrapAt256 | python/libusbsio/libusbsio.py:98-101 | delays are taken modulo 256: a delay of d + 256 encodes like d |
| PyOptions.NormalXferOptionsIdempotent | python/libusbsio/libusbsio.py:726-738 | building the I2C transfer word twice with the same arguments gives the same word |
| PyOptions.FastXferOptionsIdempotent | python/libusbsio/libusbsio.py:740-746 | building the fast-transfer word twice gives the same word |
| PyOptions.SpiOpenOptionsIdempotent | python/libusbsio/libusbsio.py:944-956 | building the SPI open word twice gives the same word |
| PyWrapper.SpiDevice | include/lpcusbsio.h:171 | the SPI device number is a byte |
| PyWrapper.SpiDeviceRoundTrip | python/libusbsio/libusbsio.py:1076 | a port below 8 and a pin below 32 are read back from the device byte |
| PyWrapper.SpiDeviceDropsHighBits | python/libusbsio/libusbsio.py:1076 | only the low three port bits and the low five pin bits count, so port 8 selects port 0 |
| PyWrapper.SpiTransferArgs | python/libusbsio/libusbsio.py:1067-1076 | the size is inferred from the data when 0; no data sends zeros; data longer than the size is refused; the buffer starts with the data and is zero-filled |
| PyWrapper.ProbeList | python/libusbsio/libusbsio.py:560-561 | the probe list is the caller's, or every NXP device when none is given |
| PyWrapper.Probe | python/libusbsio/libusbsio.py:563-571 | the first pair that answers non-zero is recorded and its answer returned, and no later pair is probed; when none answers the result is 0 after probing all |
| PyWrapper.GetNumPorts | python/libusbsio/libusbsio.py:548-571 | a recorded pair comes from the probe list and has a non-zero count; otherwise the count is 0 |
| PyWrapper.ProbeStopsAtFirstHit | python/libusbsio/libusbsio.py:564-569 | the first pair that answers is the one recorded, whatever follows it |
| PyWrapper.ListRemove | python/libusbsio/libusbsio.py:811-812 | `list.remove` raises exactly when the value is absent, and otherwise drops one occurrence |
| PyWrapper.ClosedBookkeepingAsWritten | python/libusbsio/libusbsio.py:810-812 | as written: the handle is dropped from the open list when close fails and kept when it succeeds |
| PyWrapper.ClosedBookkeeping | python/libusbsio/libusbsio.py:1032-1034 | corrected: the handle is dropped when close succeeds and kept when it fails |
| PyWrapper.ListRemoveAppended | python/libusbsio/libusbsio.py:760-765 | removing a handle that was appended to a list without it gives the list back |
| PyWrapper.ClosedPortStaysListed | python/libusbsio/libusbsio.py:803-813 | as written, a port opened and then closed successfully stays listed, so IsAnyPortOpen keeps answering true |
| PyWrapper.OpenThenCloseForgetsPort | python/libusbsio/libusbsio.py:975-980 | corrected: opening then successfully closing leaves the open list as it was, and a failed close keeps the port listed |
| PyWrapper.PyErrorCodesMatchHeader | python/libusbsio/libusbsio.py:53-73 | the binding's error constants equal the C header's codes |

## Left out

- HID I/O, the mutex and the timeout are a script of results (`Protocol.Env`),
  not real devices or threads. Concurrent callers are not modelled, and the
  mutex is only "can be taken" and "can be released".
- Memory allocation failures are not modelled except for the cursor allocation
  in `HIDAPI_Enumerate`. Every other `malloc` is assumed to succeed.
- The packet geometry and the parameter-block layouts come from the firmware's
  protocol header, which is not part of this model. They are parameters, and
  only `HID_SIO_PACKET_DATA_SZ > 0` is assumed.
- Replies are modelled with `packet_len >= HEADER_SZ`. A shorter `packet_len`
  makes the source copy a huge length; such a report cannot be written down
  here.
- A device that reports more than eight I2C or SPI ports would make the source
  index past its slot arrays. The model caps the usable ports at eight.
- On macOS, `LPCUSBSIO_GetNumPorts` filters on the HID usage page instead of
  the product string. Only the product-string filter is modelled.
- `LPCUSBSIO_GetVersion`, `LPCUSBSIO_Error`, `LPCUSBSIO_GetLastError` and the
  `GetNum*Ports`/`GetMaxDataSize` accessors only read fields. They are left
  out.
- `HIDAPI_DeviceOpen/Close/Write/Read` pass straight through to the HID
  library. They are left out.
- The FreeBSD shim and the logging are left out.
- Message texts are named by table and position (`Errors.Message`); the wide
  strings themselves are not reproduced.
- Of the Python binding, the DLL loading, the ctypes plumbing, the logging and
  the class wrappers around each C call are left out.
- Python option words are modelled as sets of bit positions. A negative Python
  int, whose bit set is infinite, is not expressible.
- A GPIO pin index is `bv5`, so a pin of 32 or more is not expressible.
  `GPIO_SetPin`, `GPIO_GetPin` and `GPIO_ClearPin` document pins 0 to 31.
- HidEnum.Next: requires the handle to be null or a live cursor. A freed or
  foreign handle is dereferenced by the source (undefined behaviour).
- HidEnum.Rewind: the same requirement as `Next`.
- Registry.KeepSio: states which entries are kept and how many, not that they
  keep their relative order (the source relinks them in order).
- PyWrapper.ListRemove: states the length and the multiset of the result, not
  that it is the first occurrence that goes.
- Lifecycle.DevInfoExchange: bounds only the status and the reply length. What
  the reply contains is stated by `Lifecycle.OpenReadsDevInfo`. It runs the
  bounded `Transport.SendRequest`: a reply longer than the 72-byte `inData`
  ends with ERR_PARTIAL_DATA here, where the source copies it past the buffer
  and parses the first 72 bytes.
- Lifecycle.OpenAsWritten: models the as-written order of registration and
  mutex creation only. Its device-info exchange is the bounded one and its
  build text is the bounded one of `Lifecycle.ParseDevInfo`.
- Lifecycle.ParseDevInfo: stores at most the text that fits `fwBuild`. The
  source writes the whole formatted text past the 60-byte field; on Windows
  `sprintf_s` stops the program instead. With 60 non-zero text bytes, `%s` in
  the source also reads past the end of the 72-byte reply buffer.
- Lifecycle.OpenReadsDevInfo: states the clipped build text, so a text too
  long for `fwBuild` (53 characters for firmware 0.0, fewer for longer version
  numbers) is not recovered whole; the source overflows `fwBuild` for such a
  text.
- Lifecycle.Close: uses `Registry.ValidHandle`. For a non-null handle that is
  not in the list, the source's `validHandle` walks off the list and
  dereferences NULL; the model returns BAD_HANDLE.
- Ports.PortOpen: uses `Registry.ValidHandle` for the device handle. A stale
  non-null handle makes the source dereference NULL; the model returns
  INVALID_PARAM.
- Ports.PortClose: uses `Registry.ValidPort`. On an open slot of the other
  kind the source sends the deinit request on that slot's session and frees
  it; on a closed slot it dereferences the slot's NULL device; on the address
  one past the last SPI slot it reads past the slot arrays. The model returns
  BAD_HANDLE in all three cases.
- I2c.DeviceRead: uses `Registry.ValidPort` and the bounded transport. On the
  three port handles `Ports.PortClose` lists the source runs the read on the
  other slot's session, dereferences NULL, or reads past the slot arrays, and a
  reply longer than `size` is copied past `inData` and returned whole. The
  model returns BAD_HANDLE, or ERR_PARTIAL_DATA for the long reply.
- I2c.DeviceWrite: uses `Registry.ValidPort`; on the three port handles
  `Ports.PortClose` lists, the source writes on the other slot's session,
  dereferences NULL, or reads past the slot arrays. The model returns
  BAD_HANDLE.
- I2c.FastXfer: the same differences as `I2c.DeviceRead`, with `rxLength` as
  the buffer size.
- I2c.Reset: the same port-handle differences as `I2c.DeviceWrite`.
- Spi.Transfer: the same differences as `I2c.DeviceRead`, with `length` as the
  buffer size.
- Spi.Reset: the same port-handle differences as `I2c.DeviceWrite`.
- Gpio.SendCmd: uses `Registry.ValidHandle` and the bounded transport. A stale
  non-null handle makes the source dereference NULL, and a reply longer than
  four bytes is copied past the 4-byte `inData`. The model returns BAD_HANDLE,
  or ERR_PARTIAL_DATA for the long reply.
- Gpio.TogglePin: uses `Registry.ValidHandle`; a stale non-null handle makes
  the source dereference NULL, where the model returns BAD_HANDLE.
- Gpio.ConfigIOPin: the same handle difference as `Gpio.TogglePin`.
- Base.Le32: the masks (src/lpcusbsio.c:443-444), the GPIO status word (452)
  and the device-info words (620-621) are copied in the host's byte order by
  `memcpy` and pointer casts. The model fixes little-endian, the order of the
  x86 and ARM hosts; a big-endian host is not modelled.
- Gpio.CmdPayload: the contract gives only the length. The layout is stated by
  `Gpio.CmdPayloadRoundTrip`.
- Gpio.ConfigPayload: the contract gives only the length. The layout is stated
  by `Gpio.ConfigPayloadRoundTrip`.

## Findings

| source | as written | input that shows it | evidently intended | confidence | as-written member | corrected member |
|---|---|---|---|---|---|---|
| src/lpcusbsio.c:194-203 | `validHandle` walks the device list until it meets the handle, so a non-null handle that is not in the list walks past the end and dereferences NULL | any non-null handle (for example one already closed) with no device open | answer "not valid" for a handle not in the list | not executed | Registry.StaleHandleWalksOffTheList | Registry.WalkAgreesOrCrashes |
| src/lpcusbsio.c:205-224 | `validPortHandle` accepts any address from a device's first I2C slot up to and including one past its last SPI slot | a closed I2C slot, an SPI slot passed to an I2C call, or the address one past the last SPI slot | accept only an open slot of the expected kind | not executed | Registry.PortCheckTooPermissive | Registry.ValidPortIsAccepted |
| src/lpcusbsio.c:585-608 | the device is put on the list before its mutex is created; when that fails, NULL is returned but the device stays listed | `LPCUSBSIO_Open` on a valid index with `pthread_mutex_init` failing | leave the registry unchanged when the open fails | not executed | Lifecycle.MutexFailureLeavesStaleDevice | Lifecycle.OpenAgreesUnlessMutexFails |
| src/lpcusbsio.c:386-391 | reply fragments are copied into `inData` without comparing against the buffer's size | a device replying 2 bytes to a call with a 1-byte buffer | never copy more than the caller's buffer holds | not executed | Transport.AsWrittenOverrunsTheBuffer | Transport.CheckedAgreesWhenReplyFits |
| python/libusbsio/libusbsio.py:810-812 | `I2C.Close` and `SPI.Close` drop the handle from `_ports_open` when the close call returns non-zero, that is when it fails | open a port, close it successfully: `IsAnyPortOpen` still answers true | drop the handle when the close succeeds | not executed | PyWrapper.ClosedPortStaysListed | PyWrapper.OpenThenCloseForgetsPort |
| src/lpcusbsio.c:624-632 | the build text is formatted by `sprintf(fwBuild, "FW %d.%d %s", ...)` into the 60-byte `fwBuild` with no bound, and `%s` reads `inData + 12`, which has no terminating zero when the text fills the 72-byte reply | firmware 0.0 reporting a 53-character build text: 60 characters plus the terminating zero | the formatted text cut to fit the field, as `snprintf` with the field's size does | not executed | Lifecycle.BuildTextOverflows | Lifecycle.ParseDevInfo |

In the corrected transport (`Transport.SendRequest`), a reply that would overflow
the buffer ends the exchange with `ERR_PARTIAL_DATA`, keeping what fit.
`Ports.PortClose` and the data calls use the intended port check
(`Registry.ValidPort`). `Lifecycle.Open` is the intended open, and the rest of
the model uses it. `Lifecycle.ParseDevInfo` stores the build text cut to what
`fwBuild` holds; `Lifecycle.ParseAgreesWhenBuildFits` shows it agrees with the
parse as written whenever the text fits.
