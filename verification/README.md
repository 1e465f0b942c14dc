# Celium, verified models

Celium is a bare-metal hypervisor with a clustered control plane. This project models the
parts of it whose correctness does not show in any single function, and proves what they
promise:

* **Guest page tables** (`EptEntries`, `EptTree`, `EptWalker`, `EptMachine`). Guest-physical
  translation tables are a lazily built four-level radix tree in raw 512-entry frames. The
  tables of all guests come from one pool. The memory refines one finite map per guest, through
  any run of mappings, remappings and failures; guests are isolated; frames are accounted for.
  On top of it (`EptIsolation`) guests that write whatever they like through their translations
  never reach one another's memory.
* **The kernel wire** (`WireScan`, `WireGrammar`, `WireRequest`, `WireDocument`, `WireHost`,
  `WireLenient`, `WireReply`, `WireUnique`, `WireLine`, `WireHostReply`, `WireStrict`,
  `WireSamples`). A single-pass JSON scanner and a printer over fixed buffers, without an allocator. The accepted
  frames are characterised exactly; the decoder's meaning is given on every escape-free JSON
  object, its verdict on every line the host prints; replies are unambiguous lines that always
  fit their buffer, and it is known exactly which of them the host can read.
* **Boot-image staging and the bridge** (`SerialLine`, `Staging`, `Bridge`, `BridgeLoop`,
  `BridgeRuns`, `BridgeAnswers`). From the host's bytes through hex, the request line, the line
  reader and the decoder to the slot and the VM that boots them; the bridge turn that answers every line with
  one reply line; and whole sessions, in which a list echoes the last create of each slot and every
  kind of line gets the one reply the host can read for it.
* **Disk images and CRC-32C** (`Crc32c`, `Crc32cDivision`, `DriftPages`, `DiskFile`, `DiskVhdx`,
  `DiskVmdk`, `DiskQcow2`, `DiskImage`, `DiskOnFile`, `Controller`). Three address translations and a
  flat file agree with one logical disk, each spelled out down to the bytes of its table entries;
  the checksum misses exactly the changes that are multiples of the generator polynomial, so it
  detects every burst of up to 32 bits and every odd change; what the controller's drift guard
  lets through follows exactly.
* **The gossip fabric** (`Membership`, `FailureDetector`, `Federation`, `Mesh`, `Gossip`,
  `GossipTold`, `Supervisor`). One node's tables as objects, and the whole system as a machine
  whose network may lose, repeat and reorder frames and whose nodes restart with higher epochs.
* **VM lifecycle and slots** (`Lifecycle`, `Slots`). Lock-free words as machines of atomic
  steps, for any number of threads and any table size.

Code that works by changing things in place is a class or a loop here, proved against a
function on values; the functions carry the theorems. In each area the lemmas marked "Main
result" in the comments are the theorems to read first.

Where code and documentation differ, the code is modelled:

* The comment on `stage_from_hex` (crates/celhyper/src/image_loader.rs:287-289) says that any
  validation failure empties the slot. The three length rejections come before the slot is
  touched and keep an earlier image: `Staging.RefusedUpload`.
* The supervisor's comment (crates/celmesh/src/mesh.rs:496-498) promises that an orphan with a
  local counterpart of the same label and owner is skipped. The new label `label@owner`, cut at 32
  bytes, is all that is compared. `Supervisor.NewNamesEqual` and `Supervisor.FullNamesEqual` say
  exactly which orphans count as one another, `Supervisor.RecreatedExactly` which are therefore
  never recreated, `Supervisor.LostOrphans` gives three pairs, and `Supervisor.TellableAreRecreated`
  a condition to check beforehand under which none is lost.
* The wire's notes say that every input the parser does not recognise is rejected
  (crates/celhyper/src/wire.rs:49-57). What is accepted is wider than JSON:
  a comma before the closing brace, members without a value, unknown members with nearly any bytes,
  and repeated members, the last one winning. `WireLenient.AcceptedFrames` is the exact language.
* The same notes rely on labels being ASCII by validation at the host. The decoder itself takes raw
  control bytes, and a listed label with a tab makes the whole list unreadable for the host's parser:
  `WireStrict.TabLabelHidesTheList`. `BridgeRuns.ListReadable` is the exact condition, and
  `BridgeRuns.CleanSessionsAreReadable` shows that it always holds for lines the host prints.
* The drift guard speaks of changed image content (crates/celcli/src/vm.rs:394-400), but compares
  digests and no lengths. `Controller.DriftExactly` says for pages of any lengths which changes it lets through,
  and `Controller.MissedDrift` gives two of them, one of equally long pages.
* The supervisor loop is said never to panic (crates/celmesh/src/mesh.rs:957-960). It does, when the
  cut of `label@owner` at 32 bytes falls inside a multi-byte character, and stops there, in every
  pass: `Supervisor.RunPass` is the exact condition, `Supervisor.AccentedPanics` an input,
  `Supervisor.Starved` the consequence for the orphans behind.

Conventions: wire bytes are Dafny characters, of which only the ranges the scanner tests
matter; disk bytes and page-table words are bit vectors; addresses in page tables are wrapped
64-bit words; all other integers are unbounded with the source's limits written out.

## Model

| member | source | states |
|---|---|---|
| `EptEntries.PathIsPage` | crates/celhyper/src/mm.rs:196-204 | Two guest addresses select the same four indices exactly when bits 47:12 agree; bits 51:48 play no part |
| `EptEntries.IndicesFromTheTop` | crates/celhyper/src/mm.rs:196-204 | The index used at each level, root first, is the number in bits 47:39, 38:30, 29:21 and 20:12 |
| `EptEntries.SharedTables` | crates/celhyper/src/mm.rs:196-204 | Two addresses go through the same tables down to depth k exactly when their bits from 47 down to 48 - 9k agree |
| `EptEntries.OffsetKept` | crates/celhyper/src/mm.rs:167-183 | A translated address has the guest bits below 4096 and the bits of the host page above |
| `EptEntries.TableEntryRoundTrip` | crates/celhyper/src/mm.rs:143-147 | An entry written for a table is present and masks back to the address of that table |
| `EptEntries.LeafEntryRoundTrip` | crates/celhyper/src/mm.rs:155-156 | A leaf with any declared flags that grants access is present and masks back to the host page: flags never leak into the address |
| `EptEntries.EntryFlags` | crates/celhyper/src/mm.rs:143-156 | The low twelve bits of a leaf are the flags it was mapped with, those of a table entry read, write and execute |
| `EptTree.LinkStep` | crates/celhyper/src/mm.rs:146-150 | Hooking a zeroed frame into an empty entry keeps the tree of tables (no sharing, no cycles) and changes no lookup of any path |
| `EptTree.LeafStep` | crates/celhyper/src/mm.rs:155-156 | Writing a leaf keeps the tree and changes the lookup of exactly that path |
| `EptTree.MapFromCorrect` | crates/celhyper/src/mm.rs:137-159 | From any depth, with any pool: the descent keeps tree and pool in order; success changes one path only, exhaustion changes none |
| `EptTree.MapFromBudget` | crates/celhyper/src/mm.rs:137-159 | A mapping succeeds exactly when the frames left cover the tables missing on its path, and then takes exactly those |
| `EptTree.WalkRawIsLookup` | crates/celhyper/src/mm.rs:167-183 | Following raw memory words from the root finds exactly what the tree of tables stores |
| `EptWalker.KernelFrames.AllocZeroed` | crates/celhyper/src/mm.rs:234-243 | Hands out the next never-handed-out zeroed frame, or reports exhaustion; the counter moves either way |
| `EptWalker.EptIndices` | crates/celhyper/src/mm.rs:196-204 | Index by level is the path read backwards, which is how the walk loops use it; which bits the path takes is `EptEntries.IndicesFromTheTop` |
| `EptWalker.Ept.New` | crates/celhyper/src/mm.rs:97-100 | A new address space has an empty tree on a fresh root and leaves the pool in order |
| `EptWalker.Ept.Map4K` | crates/celhyper/src/mm.rs:123-160 | The loop over memory computes the mapping specification: rejection on bad arguments without effect, exhaustion part-way, or success; the tables it goes through are those of `EptEntries.SharedTables` |
| `EptWalker.Ept.Translate` | crates/celhyper/src/mm.rs:167-183 | The loop over memory returns the raw walk result with the page offset kept, an error exactly where an entry is absent |
| `EptMachine.AttemptFacts` | crates/celhyper/src/mm.rs:123-160 | One mapping call on one of many address spaces: success exactly when arguments are good and frames suffice; its own tree grows, only its own path shows |
| `EptMachine.StepRefines` | crates/celhyper/src/mm.rs:97-160 | Every call on every guest, failed ones included, keeps all trees disjoint and accounted for and refines an update of a finite map from page paths to leaves |
| `EptMachine.TranslateRefines` | crates/celhyper/src/mm.rs:167-183 | The memory walk agrees with the finite map, for every guest and address |
| `EptMachine.RunsRefine` | crates/celhyper/src/mm.rs:97-184 | From boot, after any sequence of calls on any number of guests, every translation is the last successful mapping of bits 47:12 plus the page offset, or an error |
| `EptMachine.Isolation` | crates/celhyper/src/manager.rs:131-146 | Nothing done to other guests, to the frame pool or to frames taken for other uses moves a translation of a guest |
| `EptMachine.FailedMappingIsInvisible` | crates/celhyper/src/mm.rs:137-159 | A mapping that fails, half-way down included, moves no translation of any guest |
| `EptMachine.LastMappingGoverns` | crates/celhyper/src/mm.rs:123-184 | A mapping that succeeded gives every address of its page the bits of its host page above 4096 and its own below, whatever is called afterwards, until that page of that guest is mapped again |
| `EptMachine.NeverMapped` | crates/celhyper/src/mm.rs:167-183 | From boot on, a page no call ever asked for does not translate |
| `EptMachine.AttemptTables` | crates/celhyper/src/mm.rs:140-153 | A successful mapping adds exactly the tables of the three prefixes of its path |
| `EptMachine.TableFramesAreExact` | crates/celhyper/src/mm.rs:234-243 | In runs without failures a guest uses one table plus one for each 512 GiB, 1 GiB and 2 MiB region in which a page is mapped (the distinct values of the upper address bits), and tables plus taken frames are all frames handed out |
| `EptIsolation.StaysOwned` | crates/celhyper/src/vmx/launch.rs:250-277 | Whatever guests write through their translations, and as long as the kernel maps for a guest only frames it took for it, every mapped frame stays one taken for the guest that maps it |
| `EptIsolation.NothingShared` | crates/celhyper/src/vmx/launch.rs:250-277 | No host frame is reached through the translations of two guests, and none that is reached holds a page table of anyone |
| `EptIsolation.MemoryIsolation` | crates/celhyper/src/vmx/launch.rs:250-277 | Over any run of the kernel and of any number of guests in which nothing is done for or by a guest, it reads the same words at all its addresses |
| `EptIsolation.StoreIsRead` | crates/celhyper/src/vmx/launch.rs:250-277 | After a store of a guest every guest reads the stored word wherever its translation leads to the stored place, and what it read before everywhere else; a store without a translation changes nothing |
| `EptIsolation.InstalledGuestReadsItsImage` | crates/celhyper/src/vmx/launch.rs:250-277 | With five frames left, installing a guest (space, frame, image, mapping) goes through and the guest then reads its image at the load address |
| `WireScan.Scanner.SkipWhitespace` | crates/celhyper/src/wire.rs:694-698 | The loop stops at the first byte that is not one of the four blanks |
| `WireScan.Scanner.String` | crates/celhyper/src/wire.rs:700-715 | The loop returns the bytes between the quotes, refusing backslashes and missing quotes |
| `WireScan.Scanner.Number` | crates/celhyper/src/wire.rs:717-751 | The accumulating loop with overflow checks accepts a digit run exactly when its decimal value is below the limit, whichever step would overflow |
| `WireScan.Evaluate` | crates/celhyper/src/wire.rs:725-732 | The accumulating loop gives up at the first step that would overflow, exactly on the digit runs whose value does not fit |
| `WireScan.DecimalGrows` | crates/celhyper/src/wire.rs:726-731 | More digits never make a number smaller, so an overflow on the way is an overflow of the whole |
| `WireScan.Scanner.TryConsumeNull` | crates/celhyper/src/wire.rs:757-764 | Consumes four bytes exactly when they spell null |
| `WireScan.Scanner.SkipAnyValue` | crates/celhyper/src/wire.rs:770-800 | The skipping loop, with its single bracket counter, terminates in the buffer and computes the skip specification |
| `WireScan.Scanner.SkipBrackets` | crates/celhyper/src/wire.rs:776-792 | The loop over the rest of a container, with one counter for its own bracket kind, computes the container scan |
| `WireGrammar.PassesValue` | crates/celhyper/src/wire.rs:778-788 | At any depth and for either counted bracket kind a container scan passes over any escape-free JSON value as if it were not there |
| `WireGrammar.SkipValueExact` | crates/celhyper/src/wire.rs:770-800 | Skipping consumes exactly one well-formed escape-free JSON value, at any nesting and in any layout, although only one bracket kind is counted |
| `WireRequest.ReadField` | crates/celhyper/src/wire.rs:402-462 | Dispatch on the key reads each known field with its own reader and skips the rest |
| `WireRequest.ReadMember` | crates/celhyper/src/wire.rs:393-470 | One turn of the member loop |
| `WireRequest.DecodeRequest` | crates/celhyper/src/wire.rs:380-524 | The decoder computes the decoding specification on every byte string, errors included |
| `WireDocument.FieldExact` | crates/celhyper/src/wire.rs:402-462 | For every field and every value kind: accepted values are read exactly and with their meaning, others fail or leave the scanner stuck inside the literal |
| `WireDocument.DecodeObject` | crates/celhyper/src/wire.rs:380-524 | Every escape-free JSON object, in any member order and layout, with nulls, unknown members and repeats (the last one wins), decodes to the request its members mean, and to an error exactly when a known field has a wrong value or the request is incomplete |
| `WireLenient.BodyRead` | crates/celhyper/src/wire.rs:380-524 | Every text of the lenient member grammar is read to its closing brace, with the fields its entries give |
| `WireLenient.BodyInside` | crates/celhyper/src/wire.rs:380-524 | Whatever the member loop accepts is a text of the lenient member grammar, with exactly the fields collected |
| `WireLenient.AcceptedFrames` | crates/celhyper/src/wire.rs:380-524 | A frame is accepted as a request exactly when it is an opening brace, members of the lenient grammar (known names with values of their kind, unknown names with any stretch the skipping passes, possibly a comma before the closing brace) and blanks, and the collected fields make that request; every other byte string is refused |
| `WireLenient.NotJsonYetAccepted` | crates/celhyper/src/wire.rs:464-470 | Three accepted frames that are not JSON: a comma before the closing brace, a member without a value, brackets of the other kind inside a skipped array |
| `WireHost.DecimalRoundTrip` | crates/celmesh/src/hyper_host.rs:87-157 | Printing a number in decimal and evaluating the digits gives the number back |
| `WireHost.EscapeDirty` | crates/celmesh/src/hyper_serial.rs:100-102 | A string that needs escapes prints with a backslash ahead of any quote, which is what makes the kernel refuse it |
| `WireHost.HostRoundTrip` | crates/celmesh/src/hyper_host.rs:87-157 | The kernel recovers the request from the line the host prints exactly when label and path fit and nothing needs escaping (and a hex text has twice the declared length); every other typed request is refused |
| `WireReply.Writer.PutStr` | crates/celhyper/src/wire.rs:824-831 | Appends the bytes, or refuses for want of room and changes nothing |
| `WireReply.DecimalDigits` | crates/celhyper/src/wire.rs:833-865 | The backwards digit loop into a scratch buffer of ten or twenty bytes yields the decimal text of any 32- or 64-bit number |
| `WireReply.Writer.PutDecimal` | crates/celhyper/src/wire.rs:833-865 | Appends the decimal text of the number, or refuses for want of room |
| `WireReply.EncodeRow` | crates/celhyper/src/wire.rs:566-594 | A row is appended with its optional fields, or the buffer is too small |
| `WireReply.EncodeMessage` | crates/celhyper/src/wire.rs:604-615 | Quotes and backslashes are escaped and control bytes dropped, byte by byte |
| `WireReply.EncodeReply` | crates/celhyper/src/wire.rs:533-628 | Writes exactly the reply line when it fits and reports exhaustion exactly when it does not |
| `WireUnique.TextUnique` | crates/celhyper/src/wire.rs:34-47 | JSON text in any layout is unambiguous: equal text with any continuation means equal values, blanks included, and equal continuations |
| `WireLine.LineIsJson` | crates/celhyper/src/wire.rs:533-628 | What the hand-written printer emits is the text of the object of the reply and one newline (the object may hold raw control bytes in labels and paths; `WireStrict.ReplyStrict` says when it is JSON) |
| `WireLine.LineFits` | crates/celhyper/src/bridge.rs:56-61 | Every reply the bridge builds is at most 1372 bytes, below the 2048-byte buffer, so encoding never fails |
| `WireLine.WorstLineReached` | crates/celhyper/src/bridge.rs:56-61 | The bound is met by four full rows |
| `WireLine.OneLine` | crates/celhyper/src/wire.rs:530-532 | A reply is one line: its only newline is its last byte |
| `WireHostReply.ReadBack` | crates/celmesh/src/hyper_host.rs:162-234 | Reading the fields of the object by name gives back the reply, without empty slots and dropped control bytes (whether the host gets as far as the fields is `WireStrict.HostReadsExactly`) |
| `WireStrict.ReplyStrict` | crates/celhyper/src/wire.rs:573-588 | The object of a reply is a value of RFC 8259 exactly when every listed label and path is free of control bytes; all other replies always are |
| `WireStrict.HostReadsExactly` | crates/celmesh/src/hyper_serial.rs:135-136 | The host reads a reply line, in any way an RFC 8259 reader can, exactly when every listed label and path is free of control bytes, and then it reads the reply that was sent and no other |
| `WireStrict.RawCreateDecodes` | crates/celhyper/src/wire.rs:700-715 | A create whose label holds at most 32 bytes, none a quote or a backslash, is accepted with that label, control bytes included |
| `WireStrict.TabLabelHidesTheList` | crates/celhyper/src/wire.rs:573-576 | A create with a tab in its label is accepted, and the list that carries it can be read by no host |
| `WireSamples.RequestShapes` | crates/celmesh/src/hyper_host.rs:87-157 | The text of the start, stop, delete and list requests, for every VM number |
| `WireSamples.CreateShape` | crates/celmesh/src/hyper_host.rs:87-157 | The text of a create with all its members, for every clean label and path |
| `WireSamples.UploadShape` | crates/celmesh/src/hyper_host.rs:87-157 | The text of an upload |
| `WireSamples.ReplyShapes` | crates/celhyper/src/wire.rs:34-47 | Six replies as the notes on the wire show them |
| `WireSamples.HexSample` | crates/celhyper/src/wire.rs:638-663 | Four bytes and the hex text they are sent as |
| `SerialLine.Uart.ReadLine` | crates/celhyper/src/serial_io.rs:112-135 | Consumes exactly one line, stores it without carriage returns when it fits and reports exhaustion when not, and in both cases the next call starts behind it |
| `SerialLine.LineIsRead` | crates/celhyper/src/serial_io.rs:112-135 | A line anywhere in the stream is delivered whole whatever came before, over-long lines included |
| `SerialLine.CarriageReturnsDropped` | crates/celhyper/src/serial_io.rs:112-135 | A carriage return anywhere in a line is as if it were not there |
| `Staging.HexEncode` | crates/celmesh/src/hyper_host.rs:814-822 | The encoding loop computes the hex text |
| `Staging.HexDecode` | crates/celhyper/src/wire.rs:638-663 | Decodes into the front of the buffer and nowhere else, and refuses odd length, short buffers and any byte that is not lower-case hex |
| `Staging.HexRoundTrip` | crates/celhyper/src/wire.rs:638-663 | Decoding inverts encoding |
| `Staging.HexCanonical` | crates/celhyper/src/wire.rs:656-663 | Only the text the host prints decodes to given bytes |
| `Staging.RefusedUpload` | crates/celhyper/src/image_loader.rs:287-324 | A refused upload empties the slot exactly when it had passed the three length checks; the documentation claims it always does |
| `Staging.FromRawBytes` | crates/celhyper/src/image_loader.rs:92-114 | Accepts exactly blobs of 1 to 4096 bytes with the entry point inside them |
| `Staging.StagedImage.StageFromHex` | crates/celhyper/src/image_loader.rs:290-324 | The slot follows the staging specification; a present slot always holds 1 to 4096 bytes and their own digest |
| `Staging.StagedImage.Discard` | crates/celhyper/src/image_loader.rs:340-345 | Empties the slot |
| `Staging.StagedImage.FromStagedOrEmbedded` | crates/celhyper/src/image_loader.rs:367-415 | Chooses the staged bytes exactly when their digest is the one asked for, the built-in guest otherwise |
| `Bridge.HostLineIsOneLine` | crates/celmesh/src/hyper_serial.rs:100-107 | Whatever strings a request holds, the printed request contains no control byte and so stays one line |
| `Bridge.StageLineLength` | crates/celhyper/src/bridge.rs:40-45 | An upload line is at most twice the payload plus 76 bytes |
| `Bridge.UploadStages` | crates/celmesh/src/hyper_host.rs:606-638 | A host upload of 1 to 4096 bytes passes framing, decoding and staging and leaves exactly its bytes in the slot; any other length is refused with the slot as it was |
| `Bridge.StagedImageBoots` | crates/celhyper/src/image_loader.rs:367-415 | Whatever was received before, and after it short of another upload that passes the length checks, a create request with the returned digest boots exactly the uploaded bytes |
| `Bridge.BootedImageIsVerified` | crates/celhyper/src/image_loader.rs:367-415 | After any lines, the image of a create request is the built-in guest or the staged bytes with the requested digest |
| `Bridge.DamagedUpload` | crates/celhyper/src/image_loader.rs:311-319 | An upload whose bytes changed on the way is staged if and only if the change is a multiple of the generator polynomial, and otherwise refused and the slot emptied |
| `Bridge.DamagedUploadIsRefused` | crates/celhyper/src/image_loader.rs:311-319 | An upload damaged within 32 consecutive bits, or in an odd number of bits, is refused and the slot emptied |
| `Bridge.DecodedIsSafe` | crates/celhyper/src/wire.rs:476-523 | Any request decoded from a received line has numbers of their width, and a create request a label and a path within their caps, without quote, backslash or newline |
| `Bridge.SideTables.Remember` | crates/celhyper/src/bridge.rs:216-285 | Stores label and extras of one slot, refusing ids outside the table |
| `Bridge.SideTables.Forget` | crates/celhyper/src/bridge.rs:227-292 | Clears one slot only |
| `Bridge.SideTables.BuildRows` | crates/celhyper/src/bridge.rs:294-314 | The rows of a list reply pair each live slot with its own label and extras, and always make a reply the encoder can send |
| `BridgeLoop.KeepAliveIsNoRequest` | crates/celhyper/src/bridge.rs:91-93 | A line of blanks is never a request |
| `BridgeLoop.Kernel.Dispatch` | crates/celhyper/src/bridge.rs:136-197 | Answer, staging slot, booted image and side tables after any decoded request are the values of the specification functions (what these say is `BridgeAnswers`); a create stores its label and extras in the slot the manager named, a delete clears its slot, nothing else touches the tables, and every answer can be encoded |
| `BridgeLoop.Kernel.Send` | crates/celhyper/src/bridge.rs:126-132 | Encoding into the transmit buffer never fails for the replies the bridge builds |
| `BridgeLoop.Kernel.Turn` | crates/celhyper/src/bridge.rs:90-133 | Every line the reader hands over that is no keep-alive is answered by exactly one reply line, which fits the buffer; reply, slot, booted image and side tables are the values of the functions the run theorems are about |
| `BridgeRuns.Serve` | crates/celhyper/src/bridge.rs:78-133 | For any stream of bytes, read from boot on, what is sent is exactly the replies to the lines that fit the receive buffer, in order; over-long lines get none and leave slot and tables as they were; what each kind of line gets is `BridgeAnswers` |
| `BridgeRuns.FramesOfSent` | crates/celhyper/src/serial_io.rs:112-135 | Lines without line breaks, sent one behind another, are taken one by one as they were sent, each refused exactly when longer than 12288 bytes |
| `BridgeRuns.SlotIsLastTouch` | crates/celhyper/src/bridge.rs:216-292 | In every session a slot of the side tables holds what the last create answered with it brought, or nothing if a delete came last |
| `BridgeRuns.UntouchedIsFree` | crates/celhyper/src/bridge.rs:216-292 | A slot no create was answered with holds nothing |
| `BridgeRuns.ListEchoesLastCreate` | crates/celhyper/src/bridge.rs:294-314 | In every session a list reports each VM under the label and extras of the last create the manager answered with its slot |
| `BridgeRuns.HostLinesAreClean` | crates/celmesh/src/hyper_serial.rs:100-107 | No request the host prints brings a control byte into the side tables, whatever its strings hold |
| `BridgeRuns.ListReadable` | crates/celmesh/src/hyper_serial.rs:135-136 | In every session the host can read the answer to a list exactly when the label and path of every listed slot are free of control bytes, and then reads exactly that list |
| `BridgeRuns.CleanSessionsAreReadable` | crates/celmesh/src/hyper_serial.rs:135-136 | When every received line brings in clean text only, as all lines the host prints do, the host can read every reply of the session |
| `BridgeAnswers.StateIsTold` | crates/celhyper/src/bridge.rs:167-180 | In every session the host reads, after a start or stop, the id it named with the state and exit reason the VM manager gave, or an error when the manager refused, and no other reply |
| `BridgeAnswers.CreationIsTold` | crates/celhyper/src/bridge.rs:136-166 | After a create the host reads the slot the manager gave, and that slot holds the label and configuration of the request while all others stay; in every other case it reads an error and nothing changes |
| `BridgeAnswers.DeletionIsTold` | crates/celhyper/src/bridge.rs:181-187 | After a delete the host reads the id it named and that slot is empty, others staying; when the manager refused, it reads an error and nothing changes |
| `BridgeAnswers.UploadIsTold` | crates/celhyper/src/bridge.rs:189-195 | After an upload the host reads its own length and digest exactly when the staging slot then holds bytes of that length and digest; otherwise it reads an error |
| `BridgeAnswers.ListIsTold` | crates/celhyper/src/bridge.rs:188-188 | With clean labels and paths the host reads exactly the VMs the manager lists, by slot, each with the state and exit reason of the manager and the label and configuration of its slot |
| `BridgeAnswers.NoRequest` | crates/celhyper/src/bridge.rs:90-133 | A line that is neither blank nor a request gets an error and changes nothing |
| `BridgeAnswers.BlankLine` | crates/celhyper/src/bridge.rs:91-93 | A blank line gets no answer and changes nothing |
| `Crc32c.ContinueLoop` | crates/celhyper/src/crc.rs:29-39 | The nested loops compute the streaming checksum |
| `Crc32c.Checksum` | crates/celmesh/src/hyper_host.rs:832-843 | The loop with its counter computes the same digest as the other two copies |
| `Crc32c.ContinueConcat` | crates/celimage/src/util.rs:77-91 | Data may be fed in pieces cut anywhere |
| `Crc32c.StepLinear` | crates/celimage/src/util.rs:86-88 | The register step is linear over exclusive-or |
| `Crc32c.FeedBitsInjective` | crates/celimage/src/util.rs:83-91 | Feeding equal data keeps different registers different |
| `Crc32c.BurstsAreDetected` | crates/celimage/src/util.rs:73-91 | Two inputs of equal length whose differences lie within 32 consecutive bits, wherever these start, have different digests |
| `Crc32c.FourByteWindowsAreDetected` | crates/celimage/src/util.rs:73-91 | The same for differences within four consecutive bytes |
| `Crc32cDivision.UndetectedExactly` | crates/celimage/src/util.rs:73-91 | Two inputs of equal length have equal digests if and only if long division of their change by the generator leaves no remainder |
| `Crc32cDivision.SameDigestExactly` | crates/celimage/src/util.rs:73-91 | The same for inputs of any two lengths, each behind the 32 bits that preset the register |
| `Crc32cDivision.DivisibleIsMultiple` | crates/celimage/src/util.rs:83-91 | Long division leaves no remainder exactly on the products of the generator with a polynomial |
| `Crc32cDivision.OddChangesAreDetected` | crates/celimage/src/util.rs:73-91 | Every change of an odd number of bits, anywhere in the data, changes the digest |
| `DriftPages.CheckValue` | crates/celimage/src/util.rs:103-104 | The digest of the nine digits is the published check value of CRC-32C |
| `DiskVhdx.BatIndexSound` | crates/celimage/src/vhdx.rs:408-417 | A payload lookup never hits a sector-bitmap slot, is injective in the block, and stays inside the table as sized at open ([MS-VHDX] section 2.5) |
| `DiskVhdx.BatSizing` | crates/celimage/src/vhdx.rs:183-189 | The sizing is always exactly one slot more than the last lookup needs |
| `DiskVhdx.OpenWith` | crates/celimage/src/vhdx.rs:164-219 | Opening succeeds exactly when geometry is acceptable and the table fits its region and the file, and loads exactly that table |
| `DiskVhdx.OpenedTableCovers` | crates/celimage/src/vhdx.rs:393-451 | In an opened image a byte in range cannot be served only for its block state or for the end of the file, never for a missing table entry |
| `DiskVhdx.VhdxImage.ReadAt` | crates/celimage/src/vhdx.rs:393-451 | Every byte the chunk loop writes is the byte at that disk offset, reads clip at the virtual size, nothing outside the destination changes, and it fails exactly when some byte cannot be served |
| `DiskVmdk.VmdkImage.LoadGt` | crates/celimage/src/vmdk.rs:128-148 | Loads a whole grain table or fails |
| `DiskVmdk.OpenWith` | crates/celimage/src/vmdk.rs:77-119 | Opening succeeds exactly when the header is acceptable and the directory lies in the file |
| `DiskVmdk.OpenedDirectoryCovers` | crates/celimage/src/vmdk.rs:85-95 | The directory sized at open covers every offset in range: its default is never used |
| `DiskVmdk.VmdkImage.ReadAt` | crates/celimage/src/vmdk.rs:246-297 | Byte exact, clipped, confined and failing exactly when some byte cannot be served |
| `DiskQcow2.OpenWith` | crates/celimage/src/qcow2.rs:68-98 | Opening succeeds exactly when the header is acceptable and the L1 table lies in the file |
| `DiskQcow2.Qcow2Image.ReadAt` | crates/celimage/src/qcow2.rs:198-276 | One call serves bytes of one cluster at most, all of them exact; it fails exactly on clusters that cannot be located and returns nothing only at the end of the data |
| `DiskQcow2.ReadLoop` | crates/celimage/src/qcow2.rs:266-275 | The loop over short reads delivers a prefix of the file from the offset, stopping early only at its end |
| `DiskOnFile.Qcow2ByteOnFile` | crates/celimage/src/qcow2.rs:198-276 | Byte k of the cluster in place j of the i-th group lies k bytes behind bits 55:9 of word j of the L2 table that bits 55:9 of L1 word i point at, byte order included; zero words, and in version 3 the zero flag, are holes; compressed clusters and tables past the end of the file are refused |
| `DiskOnFile.VmdkByteOnFile` | crates/celimage/src/vmdk.rs:246-297 | Byte k of the grain in place j of the i-th group lies k bytes behind the sector that entry j of grain table i names; entries and tables 0 and 1 are holes |
| `DiskOnFile.VhdxByteOnFile` | crates/celimage/src/vhdx.rs:393-451 | Byte k of block j of chunk c lies k bytes behind the megabyte that table entry c(ratio + 1) + j names; block states 0 to 3 are holes, 6 is data, all others are refused |
| `DiskOnFile.Sizes` | crates/celimage/src/vhdx.rs:164-189 | The chunk ratios of two common VHDX geometries and the extreme qcow2 cluster sizes, as numbers |
| `DiskOnFile.PowersOfTwo` | crates/celimage/src/vmdk.rs:77-95 | The test on grain and table sizes passes exactly the powers of two |
| `DiskImage.RawImage.ReadAt` | crates/celimage/src/raw.rs:59-83 | The flat case: exactly the clipped file slice |
| `DiskImage.Image.ReadAt` | crates/celimage/src/disk.rs:30-38 | The contract all four formats meet |
| `DiskImage.Image.LayoutIsDisk` | crates/celimage/src/disk.rs:30-38 | An image serves exactly disk d byte by byte if and only if its blocks, grains or clusters hold d unit by unit |
| `DiskImage.Image.ReadExactAt` | crates/celimage/src/disk.rs:43-53 | The retry loop succeeds exactly when the range lies on the disk and every byte can be served, and then delivers exactly those bytes, however reads are split |
| `DiskImage.Image.FullImageCrc32c` | crates/celimage/src/lib.rs:113-136 | The chunk loop terminates, succeeds exactly on non-empty complete images, and gives the one-shot digest of the logical disk |
| `DiskImage.DigestsAreContentStable` | crates/celimage/src/lib.rs:113-136 | Complete images with equal content have equal digests whatever their formats; two complete images have equal digests if and only if the pattern by which their disks differ is a multiple of the generator; bursts of up to 32 bits never go unnoticed |
| `Membership.MembershipTable.Merge` | crates/celmesh/src/membership.rs:164-185 | Last writer wins on (epoch, hlc), the own row is never touched, and true is returned exactly when a row changed |
| `Membership.MembershipTable.MarkLeft` | crates/celmesh/src/membership.rs:188-193 | Marks a peer as departed, never the node itself |
| `Membership.MembershipTable.BumpSelf` | crates/celmesh/src/membership.rs:152-160 | Advances the own row only |
| `Membership.TickRow` | crates/celmesh/src/membership.rs:203-225 | A peer that is neither departed nor dead becomes dead when its age has reached the dead limit, else suspect when it has reached the suspect limit, else alive; the counters count the moves |
| `Membership.TickRows` | crates/celmesh/src/membership.rs:200-228 | The loop ticks every row; the three counts are the sizes of the sets of rows whose status moved, went from alive to suspect, or became dead |
| `Membership.MembershipTable.Tick` | crates/celmesh/src/membership.rs:200-228 | The same in place |
| `FailureDetector.SeenIsLastNamed` | crates/celmesh/src/membership.rs:164-185 | Over whole runs: a peer is known exactly when some row named it, and was last seen when last named, by whomever |
| `FailureDetector.TickIsExact` | crates/celmesh/src/membership.rs:200-228 | Over whole runs, with d the time since the last naming: a tick makes a peer that is not dead or departed dead exactly when d has reached the dead limit, suspect exactly when it has reached only the suspect limit, alive exactly when neither, and leaves everything else alone |
| `FailureDetector.DeadStaysDead` | crates/celmesh/src/membership.rs:204-206 | A dead or departed row changes only when a strictly newer row arrives or the peer departs: hearing old rows again revives nobody |
| `FailureDetector.StampsConverge` | crates/celmesh/src/membership.rs:164-185 | Stamps after merging depend only on which rows were heard, not on order or repetition |
| `FailureDetector.RunGrows` | crates/celmesh/src/membership.rs:152-193 | Over any run of one table no row is lost and no stamp goes back |
| `FailureDetector.RowsConverge` | crates/celmesh/src/membership.rs:164-185 | The row of a peer after merging is the same for every order, repetition and time of the same heard rows if and only if the table holds a row that nothing heard supersedes, or all heard rows with the highest stamp are equal |
| `FailureDetector.StatusDependsOnOrder` | crates/celmesh/src/membership.rs:164-185 | Of two rows with equal stamps and different statuses, the first heard stays: statuses do not converge |
| `Federation.NamespaceFederation.SetLocal` | crates/celmesh/src/federation.rs:124-135 | Replaces all own rows and no other, the last entry for an id winning |
| `Federation.NamespaceFederation.Merge` | crates/celmesh/src/federation.rs:139-152 | Strictly newer foreign rows replace older ones, own rows never change, and true is returned exactly when the table changed |
| `Federation.NamespaceFederation.RefreshAlive` | crates/celmesh/src/federation.rs:156-161 | Every row stays with its key and all it carries, and counts as alive exactly when its owner is this node or among the living |
| `Federation.RefreshedOnly` | crates/celmesh/src/federation.rs:156-161 | What a refresh leaves is determined by the rows up to liveness and by who is alive |
| `Federation.MergesIgnoreLiveness` | crates/celmesh/src/federation.rs:139-161 | Refreshing before merging changes no row but in its liveness |
| `Federation.NamespaceFederation.LocalRows` | crates/celmesh/src/federation.rs:171-173 | Exactly the own rows, each once |
| `Federation.MergedIsNewest` | crates/celmesh/src/federation.rs:139-152 | After any merges every foreign row is one that nothing offered outdates, and own rows are as before |
| `Federation.VmsConverge` | crates/celmesh/src/federation.rs:139-152 | Given one content per stamp, tables after merging depend only on the set of offered rows, across nodes too |
| `Mesh.Inner.PublishLocalVms` | crates/celmesh/src/mesh.rs:280-308 | Publishes all own rows under one fresh stamp and advances the own membership row |
| `Mesh.Inner.SendHello` | crates/celmesh/src/mesh.rs:698-712 | The frame carries the own row with the new clock |
| `Mesh.Inner.SendSync` | crates/celmesh/src/mesh.rs:719-739 | The frame lists every known row once, the own one with the clock just advanced, and exactly the own VM rows |
| `Mesh.Inner.HandleEnvelope` | crates/celmesh/src/mesh.rs:777-804 | Frames of other clusters change nothing; otherwise every row offered is known afterwards under no lower stamp and was seen now, every stored row is the old one or an offered one with a higher stamp, and a departure marks the sender and nothing else |
| `Mesh.FrameTaken` | crates/celmesh/src/mesh.rs:777-804 | The same for the function on values that the system machine delivers with |
| `Mesh.PublishedExactly` | crates/celmesh/src/mesh.rs:280-308 | After publishing, exactly the listed VMs are the own rows, each as its last entry has it, under the own id and epoch and the clock moved on by one; rows of others stay; the own membership row is alive, seen now and not behind |
| `Gossip.StepKeepsInv` | crates/celmesh/src/mesh.rs:280-804 | Start or restart with a higher epoch, publish, send, deliver, detect and list keep the system invariant, for any number of nodes and any loss, repetition and reordering |
| `Gossip.NothingInvented` | crates/celmesh/src/membership.rs:164-185 | In every reachable system no node believes a stamp its peer has not reached, every listed VM row was published by its owner under that stamp, and one stamp names one content |
| `Gossip.StepNeverGoesBack` | crates/celmesh/src/mesh.rs:777-804 | No step loses a membership row or sets its stamp back, short of the restart of the holder |
| `Gossip.RunNeverGoesBack` | crates/celmesh/src/membership.rs:152-193 | The same over whole runs between restarts |
| `Gossip.FramesKeepOwnRows` | crates/celmesh/src/federation.rs:139-152 | No received frame changes the VM rows, the membership row, the epoch or the clock of the receiver itself |
| `Gossip.SameRowsSameView` | crates/celmesh/src/federation.rs:139-152 | Two nodes that were handed the same rows, in any order and number, list the same VMs for every third owner, up to their own view of liveness |
| `GossipTold.DeliveryIsTaken` | crates/celmesh/src/mesh.rs:777-804 | In every reachable system a delivered frame is taken in row by row by its receiver and by nobody else |
| `GossipTold.PublicationArrives` | crates/celmesh/src/mesh.rs:719-804 | In every reachable system, when a node publishes and its next digest reaches another node of its cluster, that node lists every published VM with exactly the published content and stamp |
| `GossipTold.KnowsWhatItWasTold` | crates/celmesh/src/membership.rs:164-185 | In every reachable system a running node knows exactly the peers it was told of since it started, each under the highest stamp it was told |
| `GossipTold.SameToldSameStamps` | crates/celmesh/src/membership.rs:164-185 | In every reachable system two nodes that were told the same rows, in whatever order and however often, know the same third nodes under the same stamps |
| `Supervisor.IsSupervisor` | crates/celmesh/src/mesh.rs:477-488 | True exactly when the node is alive in its own table and no alive node has a lower id |
| `Supervisor.LessIsLexicographic` | crates/celmesh/src/mesh.rs:477-488 | The order on ids behind the election: one id is the front of the other, or lower at the first byte in which they differ |
| `Supervisor.OneSupervisor` | crates/celmesh/src/mesh.rs:474-488 | Two nodes that see each other alive are never both supervisor |
| `Supervisor.AgreedViewElects` | crates/celmesh/src/mesh.rs:474-488 | Nodes that agree on who is alive elect exactly one |
| `Supervisor.OrphansExactly` | crates/celmesh/src/mesh.rs:467-472 | A VM is an orphan exactly when its policy is always and its owner is another node not known to be alive |
| `Supervisor.MemHost.Create` | crates/celmesh/src/host.rs:204-236 | Takes the first free slot, or fails without effect when creates are not allowed, on long labels and on full tables |
| `Supervisor.MemHost.AttachPreserved` | crates/celmesh/src/host.rs:492-502 | Replaces the volumes of an allocated slot and nothing else, or fails without effect |
| `Supervisor.OrphanedVms` | crates/celmesh/src/mesh.rs:265-276 | Refreshes the liveness of all rows and lists exactly the orphans, in key order |
| `Supervisor.Recreate` | crates/celmesh/src/mesh.rs:535-558 | One create and one attachment put the orphan with its volumes into a free slot, or change nothing |
| `Supervisor.RunPass` | crates/celmesh/src/mesh.rs:513-566 | A pass panics if and only if some name cannot be cut and the host can take all that is due before it, gives up if and only if the host cannot take what is due (too few free slots, or creates refused), and comes to its end otherwise; it makes exactly as many VMs as the host takes, for the due orphans in order, and touches no existing VM |
| `Supervisor.RunSupervisorStep` | crates/celmesh/src/mesh.rs:499-574 | A node that does not lead, or has no host, does nothing; otherwise one pass runs over the orphans in key order with one of its three outcomes, and exactly a pass that came to its end and recreated something is followed by a publication of the host |
| `Supervisor.PublishedHost` | crates/celmesh/src/mesh.rs:576-585 | A publication lists exactly the VMs of the host, slot by slot |
| `Supervisor.NewNamesEqual` | crates/celmesh/src/mesh.rs:526-531 | Two orphans get one and the same new label if and only if both names can be cut and the full names are equal, or both have at least 32 bytes and agree on the first 32 |
| `Supervisor.FullNamesEqual` | crates/celmesh/src/mesh.rs:526 | Full names are equal if and only if label and owner are, or one label is the other with an at sign and the front of the owner id behind it |
| `Supervisor.TellableNames` | crates/celmesh/src/mesh.rs:526-531 | When full names fit 32 bytes and no label, or no owner id, holds an at sign, all names can be cut and new labels tell orphans apart exactly as label and owner do |
| `Supervisor.PlacedExactly` | crates/celmesh/src/mesh.rs:496-534 | A pass, also one that stopped half-way, makes a VM for exactly the orphans it serves and adds exactly their labels; one that came to its end serves exactly the orphans whose new label no VM of the host had |
| `Supervisor.CarriedOver` | crates/celmesh/src/mesh.rs:526-558 | A recreated VM is created anew, never restarts by itself, and has the volumes, image, processors, memory and digest of its orphan under the label, an at sign and the owner cut at 32 bytes |
| `Supervisor.StillMissing` | crates/celmesh/src/mesh.rs:513-566 | After a pass an orphan is without counterpart if and only if no VM had its new label and no served orphan got it; it was then due and not reached, or stood behind a name that cannot be cut |
| `Supervisor.NothingBehindSplit` | crates/celmesh/src/mesh.rs:526-531 | No orphan behind one whose name cannot be cut, in key order, is served |
| `Supervisor.Starved` | crates/celmesh/src/mesh.rs:513-566 | While such an orphan is around, no orphan behind it is served in any pass |
| `Supervisor.AccentedPanics` | crates/celmesh/src/mesh.rs:526-531 | A label of 30 bytes on a node named with a two-byte character: every pass that gets to this orphan panics |
| `Supervisor.RecreatedExactly` | crates/celmesh/src/mesh.rs:496-534 | Over any number of passes, each of which may stop anywhere, an orphan is due if and only if the pass gets to it, no VM of the first host had its new label and no orphan served earlier took it; what is due is served in order as far as the pass goes, and all of it by a pass that comes to its end |
| `Supervisor.ServedOnce` | crates/celmesh/src/mesh.rs:496-534 | No orphan is served in two passes, wherever passes stopped |
| `Supervisor.ServedAgain` | crates/celmesh/src/mesh.rs:496-534 | With any changes to the host in between, an orphan is served again only after the label it was given has gone |
| `Supervisor.TellableAreRecreated` | crates/celmesh/src/mesh.rs:496-534 | Tellable orphans with distinct label and owner, unknown to the host, each get their own VM by the first pass over them that does not run out of room |
| `Supervisor.LostOrphans` | crates/celmesh/src/mesh.rs:526-534 | Three pairs of orphans whose second is never recreated once the first was: an at sign read two ways, a label of 31 bytes, two VMs of one owner with one label |
| `Supervisor.SecondPassIsIdle` | crates/celmesh/src/mesh.rs:496-534 | A pass after a complete one over the same orphans, or some of them, creates nothing |
| `Lifecycle.Vm.MarkRunning` | crates/celhyper/src/vm.rs:140-142 | Succeeds exactly from created |
| `Lifecycle.Vm.OnExit` | crates/celhyper/src/vm.rs:146-154 | Records the reason always and ends the VM exactly from running |
| `Lifecycle.Vm.Stop` | crates/celhyper/src/vm.rs:157-174 | Fails exactly on ended VMs |
| `Lifecycle.OneEnd` | crates/celhyper/src/vm.rs:140-184 | In every interleaving of any number of threads exactly one terminal transition succeeds if the VM ended and none otherwise, every returned stop left it ended, and halted or faulted implies a recorded reason |
| `Lifecycle.TerminalStays` | crates/celhyper/src/vm.rs:176-184 | A terminal state never changes |
| `Lifecycle.StopFailsOnlyWhenEnded` | crates/celhyper/src/vm.rs:157-174 | Whatever happens between its two attempts, a stop returns an error exactly when the VM has ended |
| `Slots.Bitmap.ReserveSlot` | crates/celhyper/src/manager.rs:537-551 | Against arbitrary interference: returns a slot whose bit was clear until the call set it, reports exhaustion only on a full table, and retries at most as often as there are slots |
| `Slots.StepKeeps` | crates/celhyper/src/manager.rs:537-551 | Every atomic step of reserving, registering and deleting keeps the table invariant and only sets bits |
| `Slots.SlotsAreExclusive` | crates/celhyper/src/manager.rs:247-258 | In every interleaving over a table of any size no slot is handed out or deleted twice, deleted slots were registered and registered slots reserved, retries are bounded by the size, and refusal means a full table |
| `Slots.CreateAlone` | crates/celhyper/src/manager.rs:537-551 | An undisturbed create takes the lowest free slot, registers it, and changes nothing else |
| `Slots.DeleteAlone` | crates/celhyper/src/manager.rs:247-258 | An undisturbed delete marks the slot of an ended registered VM not deleted before, and refuses every other without effect |
| `Lifecycle.AloneIsTheCall` | crates/celhyper/src/vm.rs:140-184 | Run by one thread alone, the atomic steps of a call do what the object method promises, and the history names that call |
| `Controller.StageBootBlob` | crates/celcli/src/boot.rs:78-142 | Stages exactly the first page of the logical disk, byte by byte, clipped to its size, with its digest; fails exactly on an empty disk, an unreadable page or a page that cannot be stored |
| `Controller.Controller.CreateVmWith` | crates/celcli/src/vm.rs:316-349 | Refuses bad shapes, else takes the first free slot |
| `Controller.Controller.StartVm` | crates/celcli/src/vm.rs:401-496 | Starts exactly when nothing was staged, or the staged page has the recorded digest and the kernel echoed it; any refusal leaves the table as it was |
| `Controller.Controller.ResetVm` | crates/celcli/src/vm.rs:508-516 | Back to created from terminal states only, the digest kept |
| `Controller.Controller.StopVm` | crates/celcli/src/vm.rs:519-525 | Ends a VM, idempotent on ended ones |
| `Controller.Controller.DeleteVm` | crates/celcli/src/vm.rs:534-543 | Frees ended VMs only |
| `Controller.DigestSticks` | crates/celcli/src/vm.rs:439-453 | A recorded digest survives any starts, resets and stops |
| `Controller.DriftExactly` | crates/celcli/src/vm.rs:401-496 | After a start that staged a page, and any starts, resets and stops since, a start with another page of whatever length goes through if and only if the VM is created, the kernel echoed the digest, and the pattern by which the pages differ is a multiple of the generator polynomial; a refused start changes nothing |
| `Controller.DriftIsRefused` | crates/celcli/src/vm.rs:439-453 | An equally long page that differs within 32 consecutive bits, or in an odd number of bits, is refused and nothing changes |
| `Controller.MissedDrift` | crates/celcli/src/vm.rs:439-453 | Two concrete pairs of pages, one of equal and one of different lengths, share a digest: after a start with the first and a reset, a start with the second goes through |
| `Controller.SamePageRestarts` | crates/celcli/src/vm.rs:498-516 | The unchanged page is accepted again after a reset |
| `Controller.SamePageSameBoot` | crates/celcli/src/boot.rs:83-98 | Two complete images of any formats with the same logical disk stage the same page, so converting an image is no drift |

## Left out

- EptWalker.KernelFrames.AllocZeroed: the byte counter does not wrap; the original's would after 2^52 calls.
- Raw memory is a map from frame addresses to 512 words; volatile accesses, caching and the identity map of the pool are not modelled, and leaf flags are the declared bits only.
- The VM entry and control structures, assembly, interrupt, PCI and UART registers, and the firmware loader: hardware and firmware effects.
- WireScan.Scanner.SkipAnyValue: the depth counter is unbounded; the original's 32-bit counter cannot overflow on a 12 KiB frame.
- Error values keep their kind but not their message text, which is an input of a turn; logging is left out.
- BridgeLoop.Kernel.Turn: what the VM manager answers (slot ids, states, listings, failures) is an input of the turn; slot ids, exit reasons and the number of listed slots are only assumed to fit their types and the table.
- WireStrict.HostReadsExactly: the host's JSON library is replaced by the grammar of RFC 8259 with fields read by name; that bytes from 0x80 up form valid UTF-8, which that library also demands, is not modelled, nor are its limits on nesting and number size, which no reply reaches.
- WireHostReply.ReadBack: escapes other than those of quote and backslash do not occur in replies and are not decoded.
- SerialLine.Uart.ReadLine: waiting for bytes is a precondition that a complete line is there.
- The handoff-staged boot image, which is read from physical memory at bring-up.
- DiskVhdx.OpenWith: parsing of file identifier, headers, region table and metadata up to the geometry is not modelled; the same holds for the byte layout of the VMDK and qcow2 headers.
- File offsets whose sums exceed 64 bits count as past the end of the file, and poisoned file locks do not occur.
- Mesh.Inner.SendSync: the order of rows in a frame is left open (the original sorts by id); frame encoding, size limits, requests and responses between nodes, seeds, peer choice and shutdown are left out.
- The hybrid clock is unbounded; the original saturates at 2^64 - 1.
- Gossip.SameRowsSameView: agreement is up to liveness and for owners other than the two nodes; membership stamps converge (`GossipTold.SameToldSameStamps`) but statuses do not (`FailureDetector.StatusDependsOnOrder`), and VMs deleted by their owner are never removed at peers.
- Supervisor.RunSupervisorStep: the host is the in-memory one; nothing happens between the awaits of a step; metrics and the burst of gossip after a publication are left out.
- Supervisor.RunPass: labels and owner ids are byte strings in UTF-8, whose validity is not modelled; that a panic also ends the background loop, so that no later pass runs at all, is left out.
- Supervisor.MemHost.Create: of the host's capabilities only whether a create is allowed is modelled.
- Lifecycle.OneEnd: exit reasons are below the all-ones word that stands for "no exit yet"; the hardware's basic reasons have 16 bits.
- Slots.SlotsAreExclusive: a bitmap is the set of its bits; whether the installation of a VM succeeds is left to the environment, and a slot whose installation failed stays reserved, as in the original.
- Next-runnable scheduling, namespace paths, capabilities, quotas, networks, volumes, snapshots and the administrative server: they would add only easy members here.
- Controller.Controller.StartVm: the staged file and saving the table are left out; opening the image, whether the page could be stored, and what reading it back and shipping it to the kernel yields are parameters.
- Controller.DriftIsRefused: names two families of changes that are always caught; the exact set is `Controller.DriftExactly`.
- EptIsolation.MemoryIsolation: writes of devices, the flags of leaves (a store goes through even a read-only one) and the caching of translations are not modelled; writes are whole words.
