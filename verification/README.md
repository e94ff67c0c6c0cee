# Pico W sensor aggregator: verified models

Dafny models of the stateful kernels of the Pico W sensor firmware, with proofs of what they
promise. `dafny verify dfyconfig.toml` checks the whole project.

| files | what they model | main results |
|---|---|---|
| `RomSearch.dfy` | the 1-Wire ROM search: a backtracking walk of a binary trie seen only through a wired-AND bus | `Search`, `Pass`, `ListingIsUnique` |
| `DhcpLease.dfy` | the DHCP lease table with 16-bit expiry over wrapping 32-bit ticks | `LeaseExclusivity`, `OfferExactly`, `ProtectedExactly`, `ExpiredExactly`, `OfferIsHonoured` |
| `DhcpOptions.dfy`, `DhcpServer.dfy` | DHCP options and the in-place reply | `OptionRoundTrip`, `LeadingPadsExactly`, `Process`, `ReplyDecodes`, `OfferedAddressIsUnderstood` |
| `DhcpRun.dfy` | whole runs of the DHCP server on datagrams, seen in its replies | `AcksAreExclusive`, `OfferIsAcked`, `LeaseIsOfferedAgain`, `DiscoverAnswered`, `RequestAnswered` |
| `WaterPump.dfy` | the pump toggle, its mutex and the timeout interrupt, interleaved | `SafeExactly`, `CallToggles`, `TimeoutNeverSwitchesOn`, `WateringIsBounded` |
| `PostForm.dfy`, `Settings.dfy`, `CStrings.dfy` | chunked POST reception, `strtok` in place, the settings table | `Post`, `ParseBuffer`, `PostedFormMeaning`, `PostedMemberArrivesExactly`, `FormRoundTrip` |
| `NonVolatile.dfy`, `SettingsFlash.dfy` | erase/program flash, the settings record in it, the boot prelude | `RoundTripExactly`, `BootIsDurable`, `BootExactly` |
| `Reboot.dfy` | both cores from power-on to the watchdog reboot | `RebootIsDurable`, `RebootIsReached`, `CredentialsSurviveReboot` |
| `MqttInbound.dfy` | reassembly of inbound MQTT messages and the light behind it | `HandlerRunsOncePerMessage`, `LightIsParity` |
| `Crc8.dfy` | the scratchpad CRC | `CrcIsRemainder`, `DoubleErrorsCancelExactly`, `CorruptionIsRejected`, `ResidueIsZero` |
| `DnsServer.dfy` | the DNS responder | `AnsweredExactly`, `ReplyAnswersQuery`, `WellFormedExactly` |

`Bytes.dfy` holds the shared byte type and a few helpers.

## How the source is modelled

Code that updates buffers, tables and fields is a class or a method over arrays, proved equal to
a function of the state before the call; the results over whole sequences of messages, events or
posts are lemmas about those functions. Protocols between two execution contexts (pump and
interrupt, core 0 and core 1) are state machines over their statements, quantified over every
interleaving. `memcpy`, `memset` and the byte-range flash operations are parallel assignments.

What the surrounding libraries are taken to do:

- The 1-Wire bus is the wired AND of the devices still taking part, and the set of devices does not
  change during a search. Every device answers the reset pulse; only some may answer an alarm search.
- `cyw43_hal_ticks_ms` is true time in milliseconds modulo 2^32; one DHCP message is processed at one
  instant.
- A received DHCP datagram lies in the message struct with arbitrary bytes behind it, because the
  option reader can step a few bytes past the struct.
- The alarm pool has one slot, serves a due alarm before time moves on, and a cancelled alarm does
  not fire. The interrupt runs to completion between two foreground statements.
- lwIP announces an MQTT message before delivering it and never delivers more than it announced; it
  ends every accepted POST with the finish callback, one POST at a time, one pbuf per chunk. The
  build uses the polling architecture, so POST callbacks come only while core 1 polls.
- Erasing sets flash cells to 0xFF, programming can only clear bits, and the bytes behind the record
  that fill the last page are arbitrary. Writing the flash is atomic for the other core.

## Where the code does not do what one would expect

- An all-zero hardware address marks a free slot, so a lease granted to it protects nothing
  (`ProtectedExactly`).
- An expired lease looks live again half a tick period after its deadline (`ExpiryRelapses`,
  `ExpiredExactly`).
- A PAD option is read as a tag with a length, so a single one can hide the options behind it
  (`PadHidesMessageType`); PADs that come in pairs do no harm (`AgreesWithRfcOnPairs`), and leading
  PADs are harmless exactly when their number is even (`LeadingPadsExactly`).
- A form value that starts with the digit `0` is handed on as empty, because the code compares with
  the character `'0'` rather than with the terminator: a port sent as `08883` is dropped
  (`LeadingZeroIsLost`, and `PostedValueArrivesExactly` for all values).
- A body of exactly 1024 bytes without NUL is accepted but leaves no terminator in the buffer
  (`TextEndsExactly`, with such a body in `FullBodyHasNoEnd`).
- Above 65,280 bytes the 8-bit page count wraps to zero and nothing is programmed
  (`RoundTripExactly`).
- A foreground pump call that holds the mutex for the watering time would switch the pump on without
  a timeout (`SafeExactly`).
- When devices are present but none answers the search command, the error arm is taken and the store
  after it has a negative index (`Search`).
- An MQTT message whose final fragment is empty is dropped (`EmptyFinalFragmentIsLost`, and
  `HandlerRunsOncePerMessage` for all messages).
- A DNS question that is cut off is answered all the same (`CutOffQuestionIsAnswered`, and
  `WellFormedExactly` for all queries).
- Two wrong bits a multiple of 127 positions apart cancel in the CRC (`DoubleErrorsCancelExactly`);
  a scratchpad is too short for that.

## Model

| member | source | states |
|---|---|---|
| `RomCodes.EnumerationLists` | ds18b20_pio/onewire_library/onewire_library.c:67-73 | taking the least code again and again lists every code of a set once, in strictly increasing least-significant-bit-first order |
| `RomCodes.ListingIsUnique` | ds18b20_pio/onewire_library/onewire_library.c:67-73 | there is only one such listing, so the result of a search is determined |
| `RomCodes.FirstEntryIsLeast` | ds18b20_pio/onewire_library/onewire_library.c:67-73 | the first entry of the listing of a non-empty set is its least code |
| `RomCodes.NextIsNextEntry` | ds18b20_pio/onewire_library/onewire_library.c:84-131 | the successor of the n-th entry is entry n + 1 |
| `RomSearch.SlotsShowOffers` | ds18b20_pio/onewire_library/onewire_library.c:96-98 | the two wired-AND reads tell exactly which bit values the remaining devices offer; both are 1 exactly when no device is left |
| `RomSearch.DirectionKeepsPass` | ds18b20_pio/onewire_library/onewire_library.c:98-124 | the chosen direction keeps the prefix on the way to the successor and leaves at least one device active |
| `RomSearch.DirectionKeepsBranches` | ds18b20_pio/onewire_library/onewire_library.c:103-107 | `next_branch_point` stays the last index where 0 was taken at a real discrepancy, and `finished` says there is none |
| `RomSearch.PassFindsNext` | ds18b20_pio/onewire_library/onewire_library.c:95-125 | a complete pass from the last branch point of the previous code lands on the least code above it |
| `RomSearch.FinishedMeansLast` | ds18b20_pio/onewire_library/onewire_library.c:84-85 | `finished` stays true exactly when the code found is the maximum |
| `RomSearch.SearchBit` | ds18b20_pio/onewire_library/onewire_library.c:96-124 | one bit: the code, the branch point, the flag and the devices that drop out, or an error exactly when no device is left |
| `RomSearch.Pass` | ds18b20_pio/onewire_library/onewire_library.c:95-125 | one pass turns the code into the next one of the participating set; the error arm is taken exactly when that set is empty |
| `RomSearch.SearchOnce` | ds18b20_pio/onewire_library/onewire_library.c:85-125 | reset, command and pass keep the invariant between passes |
| `RomSearch.Store` | ds18b20_pio/onewire_library/onewire_library.c:127-129 | the store after a pass changes one entry, and is out of the buffer exactly when the index is negative |
| `RomSearch.Search` | ds18b20_pio/onewire_library/onewire_library.c:74-135 | terminates, returns the smaller of the limit and the number of answering devices, and stores exactly that many first entries of their increasing listing; the error arm and the stray store occur exactly when devices are present but none answers |
| `RomSearch.FindSensor` | ds18b20_pio/ds18b20.c:36-41 | the search of the sensor driver, limited to one device and counted in eight bits, reports status 4 exactly when the bus is empty and otherwise finds the least code on it |
| `DhcpLease.ExpiredExactly` | access_point_httpd/dhcpserver/dhcpserver.c:229-230 | a lease counts as expired exactly when true time modulo 2^32 is less than half a period past the next 65,536 ms boundary after its end |
| `DhcpLease.ExpirySound` | access_point_httpd/dhcpserver/dhcpserver.c:229-234 | never expired within the lease time, always expired from 65,536 ms after it for 2^31 ms, for every grant time |
| `DhcpLease.ExpiryRelapses` | access_point_httpd/dhcpserver/dhcpserver.c:229-230 | half a tick period after its deadline every lease counts as live again |
| `DhcpLease.DiscoverOnlyClearsExpired` | access_point_httpd/dhcpserver/dhcpserver.c:215-244 | a DISCOVER changes at most one slot, only by clearing an expired lease of another client, and what it offers can be granted |
| `DhcpLease.OfferExactly` | access_point_httpd/dhcpserver/dhcpserver.c:215-240 | the slot offered, stated without the search: the client's first own slot, else the first that is all zero or whose lease has run out by its deadline, else none; no other slot is right |
| `DhcpLease.ClearedExactly` | access_point_httpd/dhcpserver/dhcpserver.c:217-235 | every slot after a DISCOVER: the first usable one met before the client's own is cleared, all others are kept |
| `DhcpLease.EveryExpiryIsGranted` | access_point_httpd/dhcpserver/dhcpserver.c:271 | every 16-bit expiry is that of some grant time, so the two statements above cover every table |
| `DhcpLease.LeaseTable.Discover` | access_point_httpd/dhcpserver/dhcpserver.c:215-240 | the single pass offers the first slot with the client's address, else the first free or run-out one, else nothing, and clears accordingly; the offer is also stated through the grant times of the table |
| `DhcpLease.LeaseTable.Request` | access_point_httpd/dhcpserver/dhcpserver.c:261-271 | a slot is granted to its holder or when free, with a new expiry, and otherwise left alone |
| `DhcpLease.StepKeepsHolder` | access_point_httpd/dhcpserver/dhcpserver.c:214-282 | no message within the lease time takes a slot from its holder |
| `DhcpLease.LeaseExclusivity` | access_point_httpd/dhcpserver/dhcpserver.c:214-282 | over any sequence of messages an address acknowledged to a client is acknowledged to another one only after more than 86,400,000 ms |
| `DhcpLease.ProtectedExactly` | access_point_httpd/dhcpserver/dhcpserver.c:261-266 | that guarantee holds for a hardware address exactly when it is not all zero |
| `DhcpLease.OfferIsHonoured` | access_point_httpd/dhcpserver/dhcpserver.c:241-273 | a request for an offered address is acknowledged after any messages in which no other real client was acknowledged for it |
| `DhcpLease.HeldWasAcked` | access_point_httpd/dhcpserver/dhcpserver.c:261-271 | whoever holds a slot that was free at first was sent an ACK for it |
| `DhcpLease.SameSlotAgain` | access_point_httpd/dhcpserver/dhcpserver.c:215-221 | a client with one lease is offered the same slot again by every DISCOVER within its lease time |
| `DhcpOptions.OptFind` | access_point_httpd/dhcpserver/dhcpserver.c:146-154 | the reader loop stops where the walk over tags and lengths does |
| `DhcpOptions.OptionRoundTrip` | access_point_httpd/dhcpserver/dhcpserver.c:146-181 | after any list of options closed by END inside the area, the reader finds the first one with a code and its exact value, and nothing exactly when there is none |
| `DhcpOptions.AgreesWithRfcOnPairs` | access_point_httpd/dhcpserver/dhcpserver.c:146-154 | on any area whose PADs come in pairs, wherever they stand, the reader agrees with the walk of RFC 2132 for every tag |
| `DhcpOptions.LeadingPadsExactly` | access_point_httpd/dhcpserver/dhcpserver.c:146-154 | every area of n PADs and a PAD-free list is read as RFC 2132 says exactly when n is even or the PADs fill the area |
| `DhcpOptions.PadHidesMessageType` | access_point_httpd/dhcpserver/dhcpserver.c:151 | a leading PAD makes the reader miss a message type that the RFC walk finds |
| `DhcpOptions.OptWriteN` | access_point_httpd/dhcpserver/dhcpserver.c:156-162 | tag, length and data replace exactly those bytes and the pointer moves behind them |
| `DhcpOptions.OptWriteU8` | access_point_httpd/dhcpserver/dhcpserver.c:164-170 | the same for a one-byte option |
| `DhcpOptions.OptWriteU32` | access_point_httpd/dhcpserver/dhcpserver.c:172-181 | the same for a 32-bit option, most significant byte first |
| `DhcpOptions.BigEndian` | access_point_httpd/dhcpserver/dhcpserver.c:176-179 | the four bytes written are the digits of the value in base 256 |
| `DhcpServer.ReplyBytesEncode` | access_point_httpd/dhcpserver/dhcpserver.c:284-289 | the 34 bytes written for a reply are its six options closed by END |
| `DhcpServer.ReplyDecodes` | access_point_httpd/dhcpserver/dhcpserver.c:242-289 | the six options of every reply decode to message type, server, mask, router, name server and lease time |
| `DhcpServer.ReplyOnTheWire` | access_point_httpd/dhcpserver/dhcpserver.c:241-289 | every byte of a reply at its offset: op, address, the 34 option bytes, and the rest of the request |
| `DhcpServer.DiscoverIsUnderstood` | access_point_httpd/dhcpserver/dhcpserver.c:205-215 | a message whose first message type is DISCOVER reaches the table whatever else it carries |
| `DhcpServer.RequestIsUnderstood` | access_point_httpd/dhcpserver/dhcpserver.c:246-260 | a REQUEST that names an address of the pool reaches its slot whatever else it carries |
| `DhcpServer.RequestParsedExactly` | access_point_httpd/dhcpserver/dhcpserver.c:246-260 | a REQUEST for any address reaches the table exactly when the address is one of the eight of the pool in the server's network |
| `DhcpServer.UnservedIsIgnored` | access_point_httpd/dhcpserver/dhcpserver.c:192-282 | messages that are short, untyped, of another type or without the requested address do not reach the table |
| `DhcpServer.MessagesOnTheWire` | access_point_httpd/dhcpserver/dhcpserver.c:70-86 | the bytes of the shortest DISCOVER and of a REQUEST for the last address, at their offsets |
| `DhcpServer.OfferedAddressIsUnderstood` | access_point_httpd/dhcpserver/dhcpserver.c:241-260 | a client that sends back the address of a reply asks for the slot of that reply |
| `DhcpServer.Server.Decode` | access_point_httpd/dhcpserver/dhcpserver.c:205-260 | the checks before the table: message type, requested address, network and pool range |
| `DhcpServer.Server.Apply` | access_point_httpd/dhcpserver/dhcpserver.c:214-282 | the table after an event and the slot and type of the answer, if any |
| `DhcpServer.Server.WriteReply` | access_point_httpd/dhcpserver/dhcpserver.c:272-291 | the reply is the request with op, address and options replaced and nothing else |
| `DhcpServer.Server.Process` | access_point_httpd/dhcpserver/dhcpserver.c:183-295 | from any datagram to the table and the reply: short, untyped, foreign and refused messages leave no trace |
| `DhcpRun.ReplyTells` | access_point_httpd/dhcpserver/dhcpserver.c:183-295 | the message type, address and hardware address read in a reply tell which answer of the lease table it is |
| `DhcpRun.DiscoverAnswered` | access_point_httpd/dhcpserver/dhcpserver.c:214-244 | a DISCOVER datagram is sent an OFFER with the address of the right slot, and silence means that no slot is left |
| `DhcpRun.RequestAnswered` | access_point_httpd/dhcpserver/dhcpserver.c:246-275 | a REQUEST datagram is sent an ACK with its address exactly when that is in the pool and its slot is the client's own or free; otherwise nothing is sent and the table is kept |
| `DhcpRun.OthersIgnored` | access_point_httpd/dhcpserver/dhcpserver.c:192-282 | every other datagram is answered with silence and leaves the table alone |
| `DhcpRun.AcksAreExclusive` | access_point_httpd/dhcpserver/dhcpserver.c:183-295 | whatever datagrams arrive, two ACK replies with the same address for different clients, the first not all zero, are more than 86,400,000 ms apart |
| `DhcpRun.OfferIsAcked` | access_point_httpd/dhcpserver/dhcpserver.c:183-295 | a REQUEST that names the address of an OFFER reply to the same client is sent an ACK for it, unless another real client was sent one in between |
| `DhcpRun.LeaseIsOfferedAgain` | access_point_httpd/dhcpserver/dhcpserver.c:183-295 | over any datagrams, a client that was sent ACKs for one address only is sent an OFFER with the same address for every DISCOVER within 86,400,000 ms |
| `WaterPump.FirstStatementsKeepInv` | main.c:118-133 | the statements up to the comparison keep the invariant, whatever has happened to the alarm |
| `WaterPump.LastStatementsKeepInv` | main.c:134-155 | the statements of both branches keep it |
| `WaterPump.TimeoutNeverSwitchesOn` | main.c:157-163 | a timeout with the mutex free switches the pump off; with the mutex taken it leaves it alone |
| `WaterPump.UndisturbedCallToggles` | main.c:118-155 | a call without interruption toggles pin and text and arms or disarms the timeout |
| `WaterPump.InvAlways` | main.c:118-163 | the invariant holds after every event of every legal interleaving |
| `WaterPump.WateringIsBounded` | main.c:118-163 | the pin is high for at most the watering time, or less than twice that while a foreground call holds the mutex |
| `WaterPump.SkippedTimeoutIsMadeGood` | main.c:119-126 | when the try-lock skipped a timeout, the call that held the mutex leaves the pump off |
| `WaterPump.CallToggles` | main.c:118-163 | in every interleaving a foreground call leaves pin and text in the other state, with time passing and the alarm firing inside it: always from on to off, and from off to on if the pool has room |
| `WaterPump.SafeExactly` | main.c:118-163 | with the mutex free pin, text and pending timeout agree and the timeout is due in time, in every interleaving, exactly when no call holds the mutex for the watering time |
| `PostForm.Scan` | access_point_httpd/http_control.c:59-79 | the two scans of `strtok` over delimiters and token stay inside the text |
| `PostForm.CutToken` | access_point_httpd/http_control.c:59-79 | cutting at the end of a token leaves exactly that token and the tokens of the rest |
| `PostForm.Strtok` | access_point_httpd/http_control.c:59-79 | one call yields the next non-empty token in place, or none exactly when no token is left |
| `PostForm.ParseToken` | access_point_httpd/http_control.c:63-78 | the token is split at its first '=', passed on once, and nothing behind it changes |
| `PostForm.ParseBuffer` | access_point_httpd/http_control.c:56-81 | destructive parsing stores exactly the pairs of the body split at '&' and the first '=' |
| `PostForm.PostHandler.Begin` | access_point_httpd/http_control.c:14-31 | a request above the limit is refused, any other starts with an empty body |
| `PostForm.PostHandler.ReceiveData` | access_point_httpd/http_control.c:34-54 | a chunk is appended whole or refused whole |
| `PostForm.PostHandler.TextEndsExactly` | access_point_httpd/http_control.c:21-59 | the text in the buffer is terminated exactly when the body is shorter than the buffer or holds a NUL |
| `PostForm.PostHandler.Finished` | access_point_httpd/http_control.c:84-93 | the body is parsed into the record, the store flag raised and the buffer cleared |
| `PostForm.FullBodyHasNoEnd` | access_point_httpd/http_control.c:14-54 | a NUL-free body of 1024 bytes is accepted and leaves a buffer without a terminator |
| `PostForm.PostHandler.Post` | access_point_httpd/http_control.c:14-93 | for any division of a body into chunks the record ends up with the pairs of the whole body up to its first NUL; a body above 1024 bytes is refused and changes nothing |
| `PostForm.PostedFormMeaning` | access_point_httpd/http_control.c:56-81 | every field reads as the last value sent for it that fits and does not start with '0'; a field without one, the bytes behind the values stored, the flag words and the padding keep their bytes |
| `PostForm.FormRoundTrip` | access_point_httpd/http_control.c:56-81 | the pairs of a form with any number of them are read back as they were sent |
| `PostForm.OnePair` | access_point_httpd/http_control.c:59-78 | a key, '=' and a value are passed on as that one pair, the value empty if it starts with '0' |
| `PostForm.PostedValueArrivesExactly` | access_point_httpd/http_control.c:56-81 | a value posted for a field is what the field reads afterwards exactly when it was there before, or is not empty, fits and does not start with '0' |
| `PostForm.PostedMemberArrivesExactly` | access_point_httpd/http_control.c:56-81 | the same by member of the struct: a value posted under the name of a member arrives at the bytes of that member |
| `PostForm.WifiCredentialsArrive` | access_point_httpd/http_control.c:56-81 | wifi_ssid=...&wifi_pass=... arrives at bytes 4 to 36 and 37 to 100 and changes nothing before or behind them |
| `PostForm.LeadingZeroIsLost` | access_point_httpd/http_control.c:70-74 | a broker port posted as 08883 leaves the record as it was |
| `Settings.NamesAreDistinct` | runtime_settings.c:10-19 | a key names at most one field |
| `Settings.TableMatchesStruct` | runtime_settings.h:46-55 | the table gives each name the size of the member of that name and the offset that the sizes before it add up to |
| `Settings.StructSize` | runtime_settings.h:46-64 | end of the texts, aligned final flag and size of the record follow from the members, and the flag bytes are the value 0xA5A5A5 |
| `Settings.SlotsAreDisjoint` | runtime_settings.c:10-19 | the slots lie one behind the other between the two flags |
| `Settings.StorePairEffect` | main.c:196-209 | one pair changes only the field that accepts it, to that text |
| `Settings.LastValueWins` | main.c:196-209 | after any sequence of pairs a field reads as the last value it accepts, or keeps its bytes |
| `Settings.SlotTailIsKept` | main.c:196-209 | the bytes of a slot behind every value it accepts are kept by any sequence of pairs |
| `Settings.FrameIsKept` | main.c:196-209 | every sequence of pairs keeps texts terminated inside their slots and both flag words unchanged |
| `Settings.ChangedExactly` | main.c:202-206 | `settings_changed` is raised exactly when some pair was stored |
| `Settings.SettingsRecord.ProcessPostField` | main.c:196-209 | the loop over the table stores the pair in its field or does nothing |
| `NonVolatile.ErasedTakesData` | non_volatile.c:44-46 | programming an erased cell leaves the data in it |
| `NonVolatile.PagesFitSegments` | non_volatile.c:15-17 | the programmed pages lie inside the erased segments for every length, and cover the data exactly up to 65,280 bytes |
| `NonVolatile.WrittenCell` | non_volatile.c:32-48 | every flash cell after a write: untouched below the tail, data in the pages, 0xFF behind them |
| `NonVolatile.RoundTripExactly` | non_volatile.c:18-48 | reading back returns the data exactly when the length is at most 65,280 or the data is all 0xFF |
| `NonVolatile.NothingElseChanges` | non_volatile.c:35-44 | nothing below the tail segments changes |
| `NonVolatile.TailExactly` | non_volatile.c:18-44 | data of any length lies at 0x200000 - 4096 * ceil(length / 4096); writes put it there and change nothing below, reads look there |
| `NonVolatile.Flash.Write` | non_volatile.c:32-53 | erases the tail segments and programs the pages of the source |
| `NonVolatile.Flash.Read` | non_volatile.c:18-30 | returns the bytes at the start of the tail segments |
| `SettingsFlash.SettingsStore.ReadSettings` | runtime_settings.c:27-43 | fills the record from flash and reports a missing or mismatching flag; without a record it reports 1 and does nothing |
| `SettingsFlash.SettingsStore.WriteSettings` | runtime_settings.c:45-53 | sets both flags of the record and saves it; without a record it does nothing |
| `SettingsFlash.SettingsStore.BootPrelude` | main.c:382-389 | reads the record, or installs and saves the defaults |
| `SettingsFlash.SavedReadsBack` | runtime_settings.c:45-53 | a saved record reads back unchanged whatever fills its last page |
| `SettingsFlash.BootIsDurable` | main.c:382-389 | from any flash contents RAM equals a flash image with status 0; a valid image is kept, anything else becomes the defaults, and nothing below the tail changes |
| `SettingsFlash.BootExactly` | main.c:382-389 | the 812 bytes at 0x1FF000 are taken exactly when both flag words are 0x00A5A5A5, otherwise they become the defaults with both flags |
| `Reboot.PostKeepsInv` | main.c:305-324 | a request keeps RAM equal to the booted record with everything posted since |
| `Reboot.NetKeepsInv` | main.c:308-337 | every step of core 1, from boot to the handover, keeps what relates record, flash and history |
| `Reboot.MoveKeepsInv` | main.c:308-449 | every step of either core keeps who holds the mutex, and that the order to reboot is given after the write, is never lost and is taken once |
| `Reboot.InvAlways` | main.c:308-449 | it holds after every event of every run of both cores |
| `Reboot.RebootIsDurable` | main.c:329-449 | core 0 reaches the reboot only when flash reads back, with status 0, exactly the booted record with everything posted, something was stored, and the next boot starts from it |
| `Reboot.HandoverIsNeverLost` | main.c:329-449 | in every run, once core 1 has handed over, the order to reboot is set or core 0 obeys it |
| `Reboot.PollingDealsWithRequest` | main.c:311-317 | a finished request makes core 1 leave the loop if the record changed and is forgotten otherwise |
| `Reboot.MutexIsReleased` | main.c:333-446 | whoever holds the mutex is not blocked and releases it within two steps |
| `Reboot.RequestCommits` | access_point_httpd/http_control.c:84-93 | a request with an acceptable pair, served while core 1 polls, commits it to leave the loop |
| `Reboot.RebootIsReached` | main.c:308-449 | from there on every run with five turns of core 1 and then six of core 0, not counting turns spent waiting for the mutex, reaches the reboot |
| `Reboot.ShortestWay` | main.c:312-449 | with the mutex free six steps of core 1 and four of core 0 suffice |
| `Reboot.CredentialsSurviveReboot` | main.c:305-449 | after the reboot the device boots with the network name and password of the last request served before it |
| `MqttInbound.TopicState.Append` | tls_mqtt_client.c:189-196 | a fragment goes behind the text and its terminator inside the buffer; received plus outstanding bytes stay below 128 |
| `MqttInbound.Client.FindTopic` | tls_mqtt_client.c:136-146 | the lookup loop yields 0 for PicoWClient1/control/water, 1 for PicoWClient1/control/light and 2 for any other name |
| `MqttInbound.Client.IncomingPublish` | tls_mqtt_client.c:131-167 | an announcement drops the unfinished message of its topic and records unknown topics and oversize messages |
| `MqttInbound.Client.IncomingData` | tls_mqtt_client.c:169-220 | a fragment is appended, ignored, or completes the message and calls the handler |
| `MqttInbound.DeliverCalls` | tls_mqtt_client.c:169-220 | any fragmentation of an announced message leads to one handler call with the concatenated bytes, or to none |
| `MqttInbound.ReceiveCalls` | tls_mqtt_client.c:31-220 | a handled message on PicoWClient1/control/water leads to exactly one call with topic 0 and its bytes, one on PicoWClient1/control/light to one with topic 1, any other to none |
| `MqttInbound.StatusAfterMessage` | tls_mqtt_client.c:131-167 | the status after a message tells an unknown topic and more than 127 bytes from success |
| `MqttInbound.HandlerRunsOncePerMessage` | tls_mqtt_client.c:131-220 | over any sequence of whole and cut-off messages the handler is called once, in order, for each whole message of 1 to 127 bytes on a known topic whose final fragment is not empty |
| `MqttInbound.EmptyFinalFragmentIsLost` | tls_mqtt_client.c:197-213 | a one-byte message on the light topic that ends with an empty fragment calls no handler |
| `MqttInbound.LightIsParity` | main.c:165-181 | the light is on exactly when the number of handled light messages is odd, and its text agrees |
| `Crc8.AddBits` | ds18b20_pio/ds18b20.c:73-81 | the inner loop feeds the eight bits of a byte, least significant first |
| `Crc8.Calculate` | ds18b20_pio/ds18b20.c:66-84 | the two loops leave in the register what the bits of all bytes, in transmission order, leave there |
| `Crc8.DivisionIdentity` | ds18b20_pio/ds18b20.c:66-84 | long division over GF(2) by x^8 + x^5 + x^4 + 1: every polynomial is quotient times generator plus the remainder |
| `Crc8.DivisionIsUnique` | ds18b20_pio/ds18b20.c:66-84 | no other quotient and remainder of degree below 8 do that |
| `Crc8.CrcIsRemainder` | ds18b20_pio/ds18b20.c:66-84 | the CRC of any message is the remainder of the message times x^8 |
| `Crc8.ResidueIsZero` | ds18b20_pio/ds18b20.c:103-105 | the residue over data and one more byte is zero exactly when that byte is the CRC of the data |
| `Crc8.TableEntries` | ds18b20_pio/ds18b20.c:66-84 | the CRC of the single bytes 0x01 and 0x80, which fixes the order of the bits |
| `Crc8.ReadTemperature` | ds18b20_pio/ds18b20.c:116-125 | nine bytes are accepted exactly when the last one is the CRC of the first eight |
| `Crc8.CrcIsLinear` | ds18b20_pio/ds18b20.c:66-84 | the CRC of an exclusive or is the exclusive or of the CRCs |
| `Crc8.ParityOfRegister` | ds18b20_pio/ds18b20.c:75-79 | the parity of the register is the parity of all bits shifted in |
| `Crc8.ErrorsAreSeenByTheirCrc` | ds18b20_pio/ds18b20.c:116-125 | whether an error pattern turns an accepted frame into an accepted one depends only on the pattern |
| `Crc8.OrderIs127` | ds18b20_pio/ds18b20.c:76-79 | after a single one bit the register reaches 1 for the first time after 126 zero bits |
| `Crc8.DoubleErrorsCancelExactly` | ds18b20_pio/ds18b20.c:66-84 | two wrong bits in a frame of any length cancel exactly when their distance is a multiple of 127 |
| `Crc8.DoubleErrorsAreSeen` | ds18b20_pio/ds18b20.c:66-84 | two wrong bits within 127 bits never cancel |
| `Crc8.BurstsAreSeen` | ds18b20_pio/ds18b20.c:66-84 | a non-zero error inside eight consecutive bits never cancels |
| `Crc8.CorruptionIsRejected` | ds18b20_pio/ds18b20.c:86-125 | every frame hit by an odd number of wrong bits or by a burst of at most eight bits is rejected, one hit by two wrong bits is rejected exactly when their distance is not a multiple of 127, so always in up to 15 bytes |
| `DnsServer.WalkQuestion` | access_point_httpd/dnsserver/dnsserver.c:151-170 | the label walk terminates, reads only received bytes and stops where the reference walk does, or refuses a label above 63 |
| `DnsServer.WriteReply` | access_point_httpd/dnsserver/dnsserver.c:182-214 | header, echoed question and answer, ending by byte 287 of the 300-byte buffer |
| `DnsServer.Process` | access_point_httpd/dnsserver/dnsserver.c:103-218 | a query that passes the checks is answered in place, any other message is left alone |
| `DnsServer.WalkAgrees` | access_point_httpd/dnsserver/dnsserver.c:154-170 | on a well-formed name the walk stops where an RFC 1035 decoder does |
| `DnsServer.WellFormedExactly` | access_point_httpd/dnsserver/dnsserver.c:131-180 | an answered query has a complete first question exactly when the question section ends within the received bytes |
| `DnsServer.WalkHasChain` | access_point_httpd/dnsserver/dnsserver.c:151-170 | where the walk stops there is a chain of labels of 1 to 63 bytes that leads there |
| `DnsServer.ChainIsWalked` | access_point_httpd/dnsserver/dnsserver.c:151-170 | every such chain is walked to its end |
| `DnsServer.AnsweredExactly` | access_point_httpd/dnsserver/dnsserver.c:110-180 | a message is answered exactly when the query bit and the opcode are zero, whatever the other flags, there is a question, and a chain of labels of at most 255 octets starts at byte 12 |
| `DnsServer.DecodableIsAnswered` | access_point_httpd/dnsserver/dnsserver.c:131-180 | every decodable first question of at most 255 octets behind such a header is answered |
| `DnsServer.ExampleIsAnswered` | access_point_httpd/dnsserver/dnsserver.c:110-180 | the query of a resolver for example.com, recursion desired, is answered |
| `DnsServer.CutOffQuestionIsAnswered` | access_point_httpd/dnsserver/dnsserver.c:151-180 | a 13-byte query that ends behind the length of its first label is answered although its question is incomplete |
| `DnsServer.ReplyAnswersQuery` | access_point_httpd/dnsserver/dnsserver.c:110-214 | an RFC 1035 decoder recovers from the reply the same id, the same first question and one address record whose pointer resolves to that name |

## Left out

- RomSearch.Search: the device counter is an unbounded integer, so a bus with more than 2^31 devices is not modelled, and the eight command bits are sent as one step.
- DhcpLease.LeaseTable.Discover: the tick counter is read once for a message, not once for each slot.
- Reboot.RebootIsDurable: a power cut during the flash write is not an event; from whatever it leaves, `BootIsDurable` applies at the next power-on.
- MqttInbound.LightIsParity: the water topic is modelled in `WaterPump.dfy`, not composed with the messages.
- WaterPump.SafeExactly: `strncpy` is one statement, and the pump is a state machine over values rather than a class, because two contexts share it.
- Reboot.RebootIsReached: the button is held at power-on, so core 1 runs the access point; the station mode has no reboot.
- The record is the one of a build without TLS; with TLS it grows by three certificates.
- lwIP, mbedTLS, the Wi-Fi driver, PIO, DMA and GPIO: foreign code, represented by the assumptions above.
- `wifi_arch.c`, TLS configuration, connecting and reconnecting: sequences of library calls.
- MQTT subscription bookkeeping and outbound publishing: the flag is flipped per callback and a failed publish keeps its message, so they have no invariant to prove.
- `sensors.c`, `dht_pio/dht.c` and the conversion of temperatures: dispatch loops and one-line arithmetic that would only add easy members.
- Overlapping POST requests and chained pbufs: the code keeps one shared buffer and reads the first pbuf only.
- URL decoding of posted values: the code does not do it.
