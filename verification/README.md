# A verified model of the WAMR runtime's stateful cores

The project models, in Dafny 4.11, those parts of the bundled WebAssembly Micro Runtime whose correctness
spans several functions and a state that is updated in place, and the ring buffer of the benchmark driver.
`dafny verify dfyconfig.toml` checks all of it.

| files | what they model |
|---|---|
| `AttrContainer.dfy` with `AssocList.dfy`, `Tiling.dfy` | a key/value map in one flat block of bytes, overwritten, slid, appended to and moved to bigger blocks |
| `InstallReceiver.dfy`, `InstallContext.dfy` | the receiver of install requests, one byte at a time: its step as a function, and the object updated in place |
| `AotSections.dfy` | the loader's search for the mode and its batch splitter of AOT files, and exactly where it agrees with the receiver |
| `RestfulPacket.dfy`, `HostLink.dfy`, `HostReceiver.dfy` | request packets, the framed host link that feeds the receiver, and the object its callback updates |
| `MemoryLayout.dfy`, `LinearMemory.dfy` | the 32-bit layout arithmetic for the app heap, growth of linear memory, addresses and offsets |
| `Globals.dfy`, `Tables.dfy` | the layout and the accessors of globals, tables with reserved slots |
| `SymbolTable.dfy`, `NameLookup.dfy` | two checks of the AOT loader and what later lookups may rely on |
| `ModuleRefs.dfy` | reference counting of modules over stores and shared handles |
| `EventLists.dfy`, `EventRegistry.dfy` | the event registry as lists, and as the linked nodes in memory |
| `RingBuffer.dfy`, `BitCount.dfy` | the ring buffer; the loops that count bits |
| `Words.dfy` | machine words with explicit wrap-around, byte order, memcpy and memmove |

Where the source works by changing things step by step, a method does so too and is proved against a function;
the lemmas then say what that function means. Results of allocations, locks, the app manager's handler and the
heap allocator are parameters, so failures are part of the contracts.

## Where the code does not do what it is there for

Each of these is proved with the exact condition under which the code does meet the expectation.

- A serialised container carries a read-only flag that `attr_container_set_attr` does not look at: the check
  tests the shift amount 2, that is bit 1, and not bit 2. Setting an attribute on a serialised copy is refused by
  its flags if and only if bit 1 of the original's flags is set (`AttrContainers.SetOnCopy`); on the copy of a
  container created here it succeeds (`AttrContainers.SetOnFreshCopy`).
- The receiver and the loader do not make the same of every AOT file. `AotSections.DifferWhen` gives the exact set
  of files on which they differ, and there is a file for each way: section types are compared as signed numbers by
  the receiver and as unsigned ones by the loader (`AotSections.NegativeTypeDiverges`); the receiver never
  completes an empty section (`AotSections.EmptySectionDiverges`); and the loader first looks for the mode of
  execution, which may fail (`AotSections.ShortTargetInfoDiverges`) or leave text as it is in the file
  (`AotSections.InPlaceDiverges`).
- A URL or section of length zero is never completed; the receiver waits for ever
  (`InstallReceiver.BytecodeInstalled` is an equivalence for this reason). In the source, bytes that follow a URL
  or a section of a bytecode file are then written past its block; a section of an AOT file has no block in this
  case, so that the next byte meets an assertion that there is one. The methods of `InstallContext` therefore ask
  for room, and `HostLink.StreamSafe` shows when there always is.
- The length check of `unpack_request` adds up in 32 bits. For exactly those packets whose lengths come to their
  size and 2^32 more, the last byte of the URL is then looked at behind the packet (`RestfulPacket.BeyondWhen`,
  with the packet of `RestfulPacket.BeyondExample`).
- A packet with a URL of length zero can pass all checks and have no byte of value 0 behind its fixed part. For
  exactly these packets the URL of the request has no end inside the packet, and the dispatch looks for it behind
  (`RestfulPacket.UnterminatedWhen`, `RestfulPacket.UnterminatedExample`); of any other request that is taken, URL
  and payload lie inside (`RestfulPacket.TakenInside`). What is dispatched is promised for packets without either
  defect, and `HostLink.StreamSafe` shows that no sendable message has one.
- After a request that cannot be unpacked the link skips its reset; it is ready again if and only if the request
  could be unpacked (`HostLink.ReadyAfterRequest`). The next frame is lost, of whatever type, and as many bytes
  with it as the size misread from its header says (`HostLink.NextFrameLost`, `HostLink.RequestLostExample`).
- After an app that leaves the receiver waiting, the bytes of the next install frame go into the phase that waits,
  and the link takes the frame for complete in its middle, or never (`HostLink.WaitingReceiverFed`).
- After noise the next frame is recognised if and only if the noise ends in an even number of 0x12 bytes
  (`HostLink.HeaderAfterNoise`, `HostLink.NoiseExample`).
- The assertion that a memory fits 4 GiB - 1 fails exactly for 65536 pages without an app heap
  (`MemoryLayouts.NoHeapFits`, `MemoryLayouts.NoHeapExample`), and a memory clamped to 4 GiB - 1 is never
  allocated, since the allocation refuses that size (`LinearMemories.Instantiate`).
- A heap that gets pages of its own can be up to 1 KiB smaller than asked for; `MemoryLayouts.HeapSmallerWhen`
  says when, and `MemoryLayouts.HeapSmallerExample` has a memory for which it is.
- Growth returns false, yet has taken place, exactly when the heap could not follow
  (`LinearMemories.GrownUnreported`); `LinearMemories.GrownUnreportedExample` instantiates a memory and grows it so.
- An initialiser that names an imported global is accepted by the mutability of the first import.
  `Globals.InitCheckExact` says for exactly which modules this makes a difference to the outcome of instantiation,
  and `Globals.NameSecondImport` instantiates modules wrongly accepted and wrongly refused.
- The ring buffer does not know how much of it is unread; a write that does not fit takes the place of the
  oldest bytes (`RingBuffers.WriteKeepsWhen`).
- When a new event's first subscriber cannot be allocated the event stays in the list without one
  (`EventLists.EmptyWhen`, `EventLists.RegisteredWhen`).

## Model

| member | source | states |
|---|---|---|
| `AttrContainers.AttrContainer.constructor` | src/wamr/core/app-framework/app-native-shared/attr_container.c:257-289 | a new container stands for the empty map, keeps its tag and has exactly 100 spare bytes |
| `AttrContainers.AttrContainer.SetAttr` | src/wamr/core/app-framework/app-native-shared/attr_container.c:298-453 | in every branch the map is the old one with the key updated, or unchanged when the call fails; when it fails and how large the block becomes is exact; tag and flags stay |
| `AttrContainers.AttrContainer.StoreRecord` | src/wamr/core/app-framework/app-native-shared/attr_container.c:378-450 | the record fits without a new block exactly if the slack and the bytes of the key's old record suffice |
| `AttrContainers.AttrContainer.SetKnown` | src/wamr/core/app-framework/app-native-shared/attr_container.c:378-418 | an existing key: overwritten in place if the size is the same, else the later records move up and the new one comes last |
| `AttrContainers.AttrContainer.SetNew` | src/wamr/core/app-framework/app-native-shared/attr_container.c:419-450 | a new key comes last and the count goes up by one, in the old block or a bigger one |
| `AttrContainers.AttrContainer.GetAsByteArray` | src/wamr/core/app-framework/app-native-shared/attr_container.c:656-698 | the map's value for a key, and nothing for a key it does not have |
| `AttrContainers.AttrContainer.Serialize` | src/wamr/core/app-framework/app-native-shared/attr_container.c:741-762 | the copy holds the same tag and records; the read-only bit is or-ed into the flags, and the bit that set_attr tests is copied unchanged |
| `AttrContainers.SetOnCopy` | src/wamr/core/app-framework/app-native-shared/attr_container.c:298-316 | setting an attribute on a serialised copy, read-only as it is, is refused by the flags if and only if bit 1 of the original is set, and else updates the map as on the original |
| `AttrContainers.SetOnFreshCopy` | src/wamr/core/app-framework/app-native-shared/attr_container.c:741-762 | create, set, serialise, set on the read-only copy: this succeeds for all tags and attributes, and the copy has both attributes |
| `AttrContainers.FlagBits` | src/wamr/core/app-framework/app-native-shared/attr_container.c:309-310 | which bits of the flags are tested and set, by the bitwise operations |
| `AttrContainers.GetAttrBegin` | src/wamr/core/app-framework/app-native-shared/attr_container.c:97-136 | finds the first record, the total and the count of any well-formed block |
| `AttrContainers.GetAttrNext` | src/wamr/core/app-framework/app-native-shared/attr_container.c:138-165 | leads from any record exactly to the byte behind it |
| `AttrContainers.FindAttr` | src/wamr/core/app-framework/app-native-shared/attr_container.c:167-199 | finds the first record with the key, or nothing if there is none |
| `AttrContainers.GetAttrEnd` | src/wamr/core/app-framework/app-native-shared/attr_container.c:201-217 | the walk over all records ends at the end of the last one |
| `AttrContainers.IncAttrNum` | src/wamr/core/app-framework/app-native-shared/attr_container.c:241-255 | only the count changes, by one in 16 bits |
| `AttrContainers.BuildRecord` | src/wamr/core/app-framework/app-native-shared/attr_container.c:343-376 | the bytes of a record decode to its key, type and value |
| `AttrContainers.RecordBytes` | src/wamr/core/app-framework/app-native-shared/attr_container.c:343-376 | the bytes of a record one after the other; a scalar value has 1 << (type & 3) of them |
| `AttrContainers.ImageUnique` | src/wamr/core/app-framework/app-native-shared/attr_container.c:97-217 | a block has one reading: its bytes determine the tag and the records |
| `AttrContainers.RecordMoved` | src/wamr/core/app-framework/app-native-shared/attr_container.c:388-418 | sliding or copying the records around the old one leaves a well-formed block with the others unchanged |
| `AssocList.PlaceUpdatesMap` | src/wamr/core/app-framework/app-native-shared/attr_container.c:319-453 | placing a record in a list with distinct keys updates exactly its key in the map |
| `InstallReceiver.RunAppend` | src/wamr/core/app-mgr/app-manager/module_wasm_app.c:1089-1570 | a run over a request is a run over its pieces, with the bytes left over counted |
| `InstallReceiver.BytecodeExample` | src/wamr/core/app-mgr/app-manager/module_wasm_app.c:1097-1347 | a whole bytecode request byte for byte, and the message that is handed over |
| `InstallReceiver.RequestVersionRefused` | src/wamr/core/app-mgr/app-manager/module_wasm_app.c:1106-1111 | every request that does not start with version 1 is refused with that byte |
| `InstallReceiver.MagicRefused` | src/wamr/core/app-mgr/app-manager/module_wasm_app.c:1166-1201 | every file that is neither bytecode nor AOT is refused with the fourth byte of its magic |
| `InstallReceiver.FileVersionRefused` | src/wamr/core/app-mgr/app-manager/module_wasm_app.c:1202-1220 | another version of either kind is refused with its first wrong byte |
| `InstallReceiver.SectionTypeRefused` | src/wamr/core/app-mgr/app-manager/module_wasm_app.c:1221-1268 | a bytecode section of a type above the highest is refused with its type byte |
| `InstallReceiver.LongSizeRefused` | src/wamr/core/app-mgr/app-manager/module_wasm_app.c:1280-1290 | a section size of more than five bytes is refused with the sixth |
| `InstallReceiver.HeaderReceived` | src/wamr/core/app-mgr/app-manager/module_wasm_app.c:1097-1165 | every request header with a non-empty URL is decoded field by field |
| `InstallReceiver.SizeReceived` | src/wamr/core/app-mgr/app-manager/module_wasm_app.c:1269-1307 | section sizes: every valid unsigned LEB128 encoding of 32 bits is decoded to its value |
| `InstallReceiver.LebExists` | src/wamr/core/app-mgr/app-manager/module_wasm_app.c:1269-1307 | every size of 32 bits has such an encoding |
| `InstallReceiver.SizeSum` | src/wamr/core/app-mgr/app-manager/module_wasm_app.c:1278-1281 | or-ing the next seven bits into a size adds them, as long as they lie above those received |
| `InstallReceiver.EmptyBodyHangs` | src/wamr/core/app-mgr/app-manager/module_wasm_app.c:1308-1346 | a zero-length section never ends, whatever follows |
| `InstallReceiver.EmptyUrlHangs` | src/wamr/core/app-mgr/app-manager/module_wasm_app.c:1158-1165 | a URL of length zero never ends, whatever follows |
| `InstallReceiver.BytecodeInstalled` | src/wamr/core/app-mgr/app-manager/module_wasm_app.c:1097-1347 | any list of framed sections is handed over exactly, with the last byte, and the context is cleared, if and only if there is a URL, there are sections, and no section is empty |
| `InstallReceiver.RoomyUnlessHanging` | src/wamr/core/app-mgr/app-manager/module_wasm_app.c:1158-1165 | a receiver that does not wait for ever has not run past the end of a URL or a body |
| `AotSections.ResolveExecuteMode` | src/wamr/core/iwasm/aot/aot_loader.c:2697-2735 | the loop skips sections up to the first TARGET_INFO or unknown type and finds the mode, or that the file ends too early |
| `AotSections.ExecuteModeWhen` | src/wamr/core/iwasm/aot/aot_loader.c:2697-2735 | by the first section that is not whole and of a type from 1 to 6: executed in place if and only if this is TARGET_INFO that says so, and no mode if and only if the file is cut off there |
| `AotSections.CreateSections` | src/wamr/core/iwasm/aot/aot_loader.c:2737-2842 | mode first, then the loop collects the sections its recursive definition gives; a file without any is refused |
| `AotSections.SplitWhen` | src/wamr/core/iwasm/aot/aot_loader.c:2737-2842 | exactly which list the loader makes of a file: its sections at multiples of 4, types below 6 or 100, the bytes of the file in the bodies, and behind text that is copied the PLT's room in zeros |
| `AotSections.ReceivedWhen` | src/wamr/core/app-mgr/app-manager/module_wasm_app.c:1369-1541 | exactly which list the receiver makes of it: the same, with negative types as well, no empty section, and text always extended |
| `AotSections.AotExample` | src/wamr/core/app-mgr/app-manager/module_wasm_app.c:1350-1541 | a whole AOT request byte for byte, and the message that is handed over |
| `AotSections.ReceiverReads` | src/wamr/core/app-mgr/app-manager/module_wasm_app.c:1369-1541 | from any section boundary on, the receiver installs exactly the list read section by section, or nothing |
| `AotSections.AotInstalled` | src/wamr/core/app-mgr/app-manager/module_wasm_app.c:1350-1541 | for every file and list: the receiver installs the list if and only if there is a URL and it is what a receiver makes of the file; unless the two differ, if and only if the loader makes this list of it |
| `AotSections.DifferWhen` | src/wamr/core/iwasm/aot/aot_loader.c:2697-2842 | the exact set of files on which receiver and loader come to different results, by types, sizes and the mode of execution |
| `AotSections.NegativeTypeDiverges` | src/wamr/core/app-mgr/app-manager/module_wasm_app.c:1411-1415 | every file with one section of negative type is installed by the receiver and refused by the loader |
| `AotSections.ShortTargetInfoDiverges` | src/wamr/core/iwasm/aot/aot_loader.c:2713-2715 | so is every file with one TARGET_INFO section that is too short for the mode |
| `AotSections.EmptySectionDiverges` | src/wamr/core/app-mgr/app-manager/module_wasm_app.c:1494-1503 | every file with one empty section of another known type is loaded, and never completed by the receiver |
| `AotSections.InPlaceDiverges` | src/wamr/core/iwasm/aot/aot_loader.c:2777 | a file that is executed in place comes out with its text extended from the receiver, and unextended from the loader |
| `InstallContexts.InstallContext.ByteArrive` | src/wamr/core/app-mgr/app-manager/module_wasm_app.c:1089-1570 | the in-place update of the context, with its blocks and running counts, is the receiver's step |
| `InstallContexts.InstallContext.SectionId` | src/wamr/core/app-mgr/app-manager/module_wasm_app.c:1369-1430 | padding is skipped and a new section is appended to the list on its first type byte |
| `InstallContexts.InstallContext.AotContent` | src/wamr/core/app-mgr/app-manager/module_wasm_app.c:1494-1541 | a complete text section is extended with zeros inside the block it was given |
| `InstallContexts.InstallContext.Complete` | src/wamr/core/app-mgr/app-manager/module_wasm_app.c:1317-1346 | the hand-over after the request's last byte, or the next section |
| `RestfulPacket.PackRequest` | src/wamr/core/app-framework/app-native-shared/restful_utils.c:47-84 | the packet written field by field has the documented layout |
| `RestfulPacket.UnpackPack` | src/wamr/core/app-framework/app-native-shared/restful_utils.c:47-139 | every request that fits a packet comes out of it unchanged |
| `RestfulPacket.PackableWhen` | src/wamr/core/app-framework/app-native-shared/restful_utils.c:47-139 | and no other request does |
| `RestfulPacket.TakenWhen` | src/wamr/core/app-framework/app-native-shared/restful_utils.c:91-139 | exactly which packets are taken, by version, size, lengths and NULs, and action, format, id and sender of the request by the bytes they are in |
| `RestfulPacket.BeyondWhen` | src/wamr/core/app-framework/app-native-shared/restful_utils.c:111-117 | the read of the last byte of the URL leaves the packet if and only if the lengths add up to its size and 2^32 more |
| `RestfulPacket.BeyondExample` | src/wamr/core/app-framework/app-native-shared/restful_utils.c:111-117 | a packet of 18 bytes for which it does |
| `RestfulPacket.UnterminatedWhen` | src/wamr/core/app-framework/app-native-shared/restful_utils.c:101-131 | a packet that passes the checks has a URL without an end inside it if and only if the URL has length zero and no byte behind the fixed part is zero |
| `RestfulPacket.UnterminatedExample` | src/wamr/core/app-framework/app-native-shared/restful_utils.c:101-131 | a packet of 18 bytes for which this is so |
| `RestfulPacket.TakenInside` | src/wamr/core/app-framework/app-native-shared/restful_utils.c:119-137 | URL with its NUL and payload of any other packet that is taken lie inside it |
| `HostLink.SendMsg` | src/wamr/core/app-mgr/app-manager/app_manager_host.c:286-312 | what goes on the wire is leading bytes, type, size in network order and payload |
| `HostLink.Exchange32` | src/wamr/core/app-mgr/app-manager/app_manager_host.c:51-61 | the four bytes are reversed and no other byte changes |
| `HostLink.ChunksDoNotMatter` | src/wamr/core/app-mgr/app-manager/app_manager_host.c:220-262 | how the stream is cut into callback pieces makes no difference |
| `HostLink.HeaderReceived` | src/wamr/core/app-mgr/app-manager/app_manager_host.c:67-156 | from any idle state every frame header is decoded, whatever fields are left from before |
| `HostLink.FrameReceived` | src/wamr/core/app-mgr/app-manager/app_manager_host.c:67-262 | what becomes of any complete message that is not an install message and is read within its bounds: the link's fields, and the request that is dispatched |
| `HostLink.RequestExample` | src/wamr/core/app-mgr/app-manager/app_manager_host.c:67-262 | a whole request frame byte for byte, and the request that is dispatched |
| `HostLink.ReadyAfterRequest` | src/wamr/core/app-mgr/app-manager/app_manager_host.c:230-242 | after a request frame the link is ready for the next if and only if the request could be unpacked, unless unpack_request itself reads past the packet |
| `HostLink.NextFrameLost` | src/wamr/core/app-mgr/app-manager/app_manager_host.c:238-241 | after one that could not, the next header of any type and size is misread, and nothing comes of as many bytes as the misread size says, whatever they are; then the link is ready again |
| `HostLink.RequestLostExample` | src/wamr/core/app-mgr/app-manager/app_manager_host.c:238-241 | after a frame of the single byte 0 no request in the next frame is dispatched |
| `HostLink.InstallFrameReceived` | src/wamr/core/app-mgr/app-manager/app_manager_host.c:158-192 | an install frame hands over exactly what the receiver installs; both machines are ready again unless the receiver still waits |
| `HostLink.InstallExample` | src/wamr/core/app-mgr/app-manager/app_manager_host.c:67-262 | a whole install frame byte for byte, and the app that is handed over |
| `HostLink.WaitingReceiverFed` | src/wamr/core/app-mgr/app-manager/app_manager_host.c:158-192 | an install frame that meets a receiver still waiting: its bytes are taken for the old request, complete with the byte that brings the total to the new size, or never if that is already reached |
| `HostLink.RejectionRecovers` | src/wamr/core/app-mgr/app-manager/app_manager_host.c:177-215 | rejected at byte k of n, the link discards exactly the other n-k-1 bytes and both machines are then in their first phase |
| `HostLink.StreamDelivered` | src/wamr/core/app-mgr/app-manager/app_manager_host.c:220-262 | any list of requests and apps in any pieces: each request is dispatched once, in order, unchanged but for its sender, each app is installed as the receiver decides |
| `HostLink.BytecodeDelivered` | src/wamr/core/app-mgr/app-manager/app_manager_host.c:158-192 | bytecode apps without empty sections are delivered through the link as they were sent |
| `HostLink.AotDelivered` | src/wamr/core/app-mgr/app-manager/app_manager_host.c:158-192 | so are AOT files that the loader accepts, except those on which receiver and loader differ |
| `HostLink.HeaderAfterNoise` | src/wamr/core/app-mgr/app-manager/app_manager_host.c:71-96 | a frame after noise is read as one if and only if the noise ends in an even number of first leading bytes |
| `HostLink.NoiseExample` | src/wamr/core/app-mgr/app-manager/app_manager_host.c:71-96 | one stray first leading byte in front of a frame and its header is missed |
| `HostLink.StreamSafe` | src/wamr/core/app-mgr/app-manager/app_manager_host.c:158-262 | receiving any stream of sendable messages never writes past a buffer and never reads past a packet |
| `HostReceivers.HostReceiver.OnByte` | src/wamr/core/app-mgr/app-manager/app_manager_host.c:67-218 | the in-place update of the link's context is the link's step |
| `HostReceivers.HostReceiver.Callback` | src/wamr/core/app-mgr/app-manager/app_manager_host.c:220-262 | the loop over a piece leaves the state and causes the events of feeding its bytes one by one |
| `MemoryLayouts.LayoutMemory` | src/wamr/core/iwasm/aot/aot_runtime.c:376-496 | the 32-bit layout step gives the result of unbounded arithmetic in every branch, although intermediate results wrap around |
| `MemoryLayouts.MoveBase` | src/wamr/core/iwasm/aot/aot_runtime.c:440-471 | when the moved __heap_base wraps around, the page count is beyond the limit |
| `MemoryLayouts.LayoutSound` | src/wamr/core/iwasm/aot/aot_runtime.c:412-511 | heap and moved __heap_base lie inside the final memory, the heap in front of __heap_base and 1 KiB behind it to spare, also after the clamp to 4 GiB - 1 |
| `MemoryLayouts.LayoutIs` | src/wamr/core/iwasm/aot/aot_runtime.c:376-496 | every number of the layout: page size, initial and maximal pages, the heap's place and size, the moved __heap_base; pages are added as few as will do |
| `MemoryLayouts.LayoutFailsWhen` | src/wamr/core/iwasm/aot/aot_runtime.c:483-488 | the step fails exactly when init pages and heap need more than 4 GiB, with 1 KiB more and the rest of its page less when the heap goes in front of __heap_base |
| `MemoryLayouts.HeapSmallerWhen` | src/wamr/core/iwasm/aot/aot_runtime.c:472-480 | the heap is smaller than asked for exactly if it gets new pages and the request leaves less than 1 KiB of the last one free |
| `MemoryLayouts.HeapSmallerExample` | src/wamr/core/iwasm/aot/aot_runtime.c:472-480 | one page is asked for, 63 KiB come of it |
| `MemoryLayouts.NoHeapFits` | src/wamr/core/iwasm/aot/aot_runtime.c:504-511 | without a heap the size assertion holds if and only if there are fewer than 65536 pages |
| `MemoryLayouts.NoHeapExample` | src/wamr/core/iwasm/aot/aot_runtime.c:504-511 | 65536 pages come to one byte more than 32 bits hold |
| `LinearMemories.Instantiate` | src/wamr/core/iwasm/aot/aot_runtime.c:368-601 | when an instance comes about, and that it is zero outside its heap, has the allocator's bytes in it, and is laid out as computed |
| `LinearMemories.LinearMemory.Enlarge` | src/wamr/core/iwasm/common/wasm_memory.c:447-562 | growth in place, with all its refusals, the clamp, the moved heap and the bound-check fields |
| `LinearMemories.LinearMemory.BoundsMean` | src/wamr/core/iwasm/common/wasm_memory.c:545-552 | an access of 1, 2, 4, 8 or 16 bytes lies inside exactly up to its bound |
| `LinearMemories.EnlargedKeeps` | src/wamr/core/iwasm/common/wasm_memory.c:447-562 | old bytes outside the heap and the heap's place survive, new bytes are zero, the size assertion holds, a refusal changes nothing; also when false is returned after growth |
| `LinearMemories.GrowsWhen` | src/wamr/core/iwasm/common/wasm_memory.c:447-562 | exactly when a memory grows, the size and page counts it then has, and what is returned |
| `LinearMemories.GrownUnreported` | src/wamr/core/iwasm/common/wasm_memory.c:522-532 | false is returned exactly for a refusal and for growth that the heap could not follow; in the latter case, and no other, the memory has grown all the same |
| `LinearMemories.GrownUnreportedExample` | src/wamr/core/iwasm/common/wasm_memory.c:447-562 | an instantiated memory of two pages with a heap that is left with three pages by a growth that returns false |
| `LinearMemories.RunExtends` | src/wamr/core/iwasm/common/wasm_memory.c:447-562 | the same over any run of requests to grow |
| `LinearMemories.AddressRoundTrip` | src/wamr/core/iwasm/common/wasm_memory.c:284-328 | exactly the offsets inside have an address, the base and the offset, and the translations are inverse to each other |
| `LinearMemories.RangesInMemory` | src/wamr/core/iwasm/common/wasm_memory.c:196-223 | the range check accepts exactly the ranges inside; the checked conversion differs for the empty range at the end only |
| `LinearMemories.NativeRangeAgrees` | src/wamr/core/iwasm/common/wasm_memory.c:253-282 | checking an offset and checking its address come to the same |
| `LinearMemories.LinearMemory.ValidateAppStr` | src/wamr/core/iwasm/common/wasm_memory.c:225-251 | accepts exactly the offsets with a NUL between them and the memory's end |
| `LinearMemories.LinearMemory.CheckAndConvert` | src/wamr/core/iwasm/common/wasm_memory.c:390-434 | accepts the same strings, and the buffers that lie inside |
| `LinearMemories.OffsetsStayValid` | src/wamr/core/iwasm/common/wasm_memory.c:196-223 | a range accepted before a run of growth is accepted after it, and every byte of it outside the heap reads the same |
| `Globals.AotModule.LoadImportGlobals` | src/wamr/core/iwasm/aot/aot_loader.c:1189-1242 | every import's offset is the sum of the sizes in front of it |
| `Globals.AotModule.LoadGlobals` | src/wamr/core/iwasm/aot/aot_loader.c:1271-1325 | so is every defined global's, continuing behind the last import |
| `Globals.AotInstance.Instantiate` | src/wamr/core/iwasm/aot/aot_runtime.c:136-192 | the layout assertions hold; imports have the linked values, and defined globals those of the import they name, the number given, or the null reference; it fails exactly on an initialiser that is not accepted |
| `Globals.AotInstance.GlobalSet` | src/wamr/core/iwasm/common/wasm_c_api.c:3188-3213 | a number set is what the global reads as, no other byte changes, other types are refused |
| `Globals.AotInstance.GlobalGet` | src/wamr/core/iwasm/common/wasm_c_api.c:3215-3239 | reads the number stored in the global's own bytes |
| `Globals.BitsRoundTrip` | src/wamr/core/iwasm/common/wasm_c_api.c:1361-1437 | every number comes back from its bytes |
| `Globals.BytesOfNumber` | src/wamr/core/iwasm/common/wasm_c_api.c:1361-1437 | a cell reads as the number its bytes are the digits of, the lowest first; other types do not read |
| `Globals.OtherCellsStay` | src/wamr/core/iwasm/aot/aot_loader.c:1232-1235 | globals do not overlap: writing one leaves every other |
| `Globals.InitCheckExact` | src/wamr/core/iwasm/aot/aot_runtime.c:81-106 | instantiation gets past the initialisers of exactly the modules whose initialisers are constant, but for one family of modules: all named globals are imported, and the first import is mutable while none of those named is, or the other way round |
| `Globals.NameSecondImport` | src/wamr/core/iwasm/aot/aot_runtime.c:81-192 | a module whose global names the second import is instantiated if and only if the first is immutable, however the second is |
| `Tables.TableInstance.constructor` | src/wamr/core/iwasm/aot/aot_runtime.c:211-235 | a table starts with its initial size, all entries uninitialised, and the slots its declaration reserves |
| `Tables.TableInstance.Grow` | src/wamr/core/iwasm/aot/aot_runtime.c:2327-2361 | old entries kept, new ones filled, the old size returned; or -1 and nothing changed |
| `Tables.GrowsWhen` | src/wamr/core/iwasm/aot/aot_runtime.c:2327-2361 | growth within the slots: old size returned, old entries kept, the value in every new one; otherwise 2^32 - 1 and nothing changed |
| `Tables.RunReadsGrown` | src/wamr/core/iwasm/aot/aot_runtime.c:2278-2361 | over any run an entry added by growth reads its value until a copy targets it |
| `Tables.TableInstance.CopyFrom` | src/wamr/core/iwasm/aot/aot_runtime.c:2278-2306 | copying in place equals copying from a snapshot, from another table or within one, and changes nothing out of bounds |
| `Tables.TableInstance.Move` | src/wamr/core/iwasm/aot/aot_runtime.c:2297-2305 | the directional loop of memmove is a copy from a snapshot |
| `Tables.CopyAsSpecified` | src/wamr/core/iwasm/aot/aot_runtime.c:2278-2306 | copying traps exactly when table.copy of the specification does, and otherwise does what its entry-by-entry rules do |
| `Tables.SpecCopyIsSnapshot` | src/wamr/core/iwasm/aot/aot_runtime.c:2297-2305 | the specification's entry-by-entry copying equals copying from a snapshot, however the ranges overlap |
| `Tables.RunKeeps` | src/wamr/core/iwasm/aot/aot_runtime.c:2278-2361 | over any run no table shrinks or outgrows its slots |
| `Tables.RunKeepsEntry` | src/wamr/core/iwasm/aot/aot_runtime.c:2278-2361 | over any run an entry that no copy targets keeps its value |
| `SymbolTables.ValidateSymbolTable` | src/wamr/core/iwasm/aot/aot_loader.c:2123-2145 | a table is accepted if and only if its records lie one behind the other from its start to its end |
| `SymbolTables.RecordsInOrder` | src/wamr/core/iwasm/aot/aot_loader.c:2328-2338 | in an accepted table every name lies inside and ends before any later record starts |
| `SymbolTables.NextRecord` | src/wamr/core/iwasm/aot/aot_loader.c:2123-2145 | the next record starts at the least even offset behind the length and the string |
| `SymbolTables.OffsetsUnique` | src/wamr/core/iwasm/aot/aot_loader.c:2123-2145 | at most one list of offsets is accepted for a table |
| `NameLookups.CheckIndexes` | src/wamr/core/iwasm/aot/aot_loader.c:685-728 | the checks accept exactly the strictly increasing lists within bounds |
| `NameLookups.LookupFuncName` | src/wamr/core/iwasm/aot/aot_runtime.c:2366-2388 | the binary search finds the name a linear scan finds, or nothing |
| `ModuleRefs.Module.Release` | src/wamr/core/iwasm/common/wasm_c_api.c:2005-2033 | one reference less, in 32 bits; the runtime module is unloaded when the count reaches zero, once |
| `ModuleRefs.Engine.StoreNew` | src/wamr/core/iwasm/common/wasm_c_api.c:440-481 | a new store holds nothing and leaves every count as it is |
| `ModuleRefs.Engine.ModuleNew` | src/wamr/core/iwasm/common/wasm_c_api.c:1898-1979 | a new module has one reference; every failing step undoes the ones before, and the runtime module it had loaded is unloaded, once |
| `ModuleRefs.Engine.Share` | src/wamr/core/iwasm/common/wasm_c_api.c:2534-2558 | one handle more, exactly while the module is loaded; counts equal references afterwards |
| `ModuleRefs.Engine.Obtain` | src/wamr/core/iwasm/common/wasm_c_api.c:2503-2532 | one entry more in the store, exactly while the module is loaded; counts equal references afterwards |
| `ModuleRefs.Engine.SharedDelete` | src/wamr/core/iwasm/common/wasm_c_api.c:2560-2564 | one handle less; the module stays loaded if and only if another reference is left |
| `ModuleRefs.Engine.StoreDelete` | src/wamr/core/iwasm/common/wasm_c_api.c:483-499 | every entry is released as often as it occurs; a module stays loaded if and only if it has references elsewhere |
| `ModuleRefs.EntriesOf` | src/wamr/core/iwasm/common/wasm_c_api.c:236-246 | what one store holds counts on top of what the others hold |
| `EventLists.RegisterAdds` | src/wamr/core/app-mgr/app-manager/event.c:64-112 | registering adds exactly one subscription, or none when it is refused, and keeps URLs and subscribers distinct |
| `EventLists.RegisterSucceedsWhen` | src/wamr/core/app-mgr/app-manager/event.c:64-112 | exactly when registering succeeds, by the URL, the subscriptions and the two allocations |
| `EventLists.RegisterOrder` | src/wamr/core/app-mgr/app-manager/event.c:104-110 | a new subscriber comes first in what is published, and the order of all others stays |
| `EventLists.UnregisterRemoves` | src/wamr/core/app-mgr/app-manager/event.c:115-146 | exactly the matching subscriptions go, and the events nobody is left for |
| `EventLists.UnregisterOrder` | src/wamr/core/app-mgr/app-manager/event.c:27-53 | a client that goes leaves the others in their order |
| `EventLists.EmptyWhen` | src/wamr/core/app-mgr/app-manager/event.c:81-104 | an event is left empty exactly when it is new and its first subscriber cannot be allocated |
| `EventLists.RegisteredWhen` | src/wamr/core/app-mgr/app-manager/event.c:191-204 | a URL is registered if and only if somebody is subscribed to it or its event was left empty |
| `EventLists.PublishReaches` | src/wamr/core/app-mgr/app-manager/event.c:164-189 | each subscriber gets a published event once, and nobody else does |
| `EventLists.RunRefinesSet` | src/wamr/core/app-mgr/app-manager/event.c:27-204 | over any run with successful allocations the lists stand for the set of subscriptions made and not withdrawn |
| `EventLists.RunRegistered` | src/wamr/core/app-mgr/app-manager/event.c:191-204 | over any such run a URL is registered if and only if a subscription to it is left |
| `EventRegistries.EventReg.FindSubscriber` | src/wamr/core/app-mgr/app-manager/event.c:27-53 | finds the client in the linked list, and unlinks its first node if asked to |
| `EventRegistries.Registry.Register` | src/wamr/core/app-mgr/app-manager/event.c:64-112 | the linked nodes after registering are those of the list operation |
| `EventRegistries.Registry.Unregister` | src/wamr/core/app-mgr/app-manager/event.c:115-146 | the walk with its unlinking of subscribers and events is the list operation |
| `EventRegistries.Registry.Publish` | src/wamr/core/app-mgr/app-manager/event.c:164-189 | the event goes to the subscribers of the first event with the URL, in order |
| `EventRegistries.Registry.EventIsRegistered` | src/wamr/core/app-mgr/app-manager/event.c:191-204 | true exactly if an event has the URL |
| `RingBuffers.RingBuffer.Write` | src/main.c:109-139 | the bytes go into the cells behind the write pointer, across the tail if need be, and no other cell changes; too long a write changes nothing |
| `RingBuffers.RingBuffer.Read` | src/main.c:142-174 | the bytes ahead of the read pointer, across the tail if need be |
| `RingBuffers.PointersMove` | src/main.c:109-174 | the pointers go round and rest at the tail, not at the head |
| `RingBuffers.WriteAhead` | src/main.c:121-138 | what is ahead of the reader after any write, fitting or not |
| `RingBuffers.WriteKeepsWhen` | src/main.c:109-139 | a write keeps what is unread if and only if it fits, or puts the same bytes in its place |
| `RingBuffers.FirstInFirstOut` | src/main.c:82-174 | over any run within bounds and any number of wraps, reads and rest are what was unread and everything written, in order |
| `RingBuffers.ReadsArePrefix` | src/main.c:82-174 | from an empty buffer the reads are a prefix of the writes |
| `BitCounts.Clz` | src/wamr/core/iwasm/aot/aot_intrinsic.c:253-277 | the loop counts the leading zeros of the word's bits |
| `BitCounts.Ctz` | src/wamr/core/iwasm/aot/aot_intrinsic.c:279-303 | the loop counts the trailing zeros of the word's bits |
| `BitCounts.Popcnt` | src/wamr/core/iwasm/aot/aot_intrinsic.c:305-325 | the loop counts the bits that are set |
| `BitCounts.LeadingIs` | src/wamr/core/iwasm/aot/aot_intrinsic.c:253-277 | the leading zeros in numbers: the powers of two the word lies between |
| `BitCounts.TrailingIs` | src/wamr/core/iwasm/aot/aot_intrinsic.c:279-303 | the trailing zeros in numbers: the factors two of the word |
| `BitCounts.LowestCleared` | src/wamr/core/iwasm/aot/aot_intrinsic.c:310 | u & (u - 1) clears the lowest set bit and no other |
| `BitCounts.AndBits` | src/wamr/core/iwasm/aot/aot_intrinsic.c:310 | the recursive definition of & works bit by bit |
| `BitCounts.OrBits` | src/wamr/core/app-mgr/app-manager/module_wasm_app.c:1280-1281 | so does that of | |

## Left out

- SetAttr: keys and strings are taken to fit 16-bit lengths, the count to be below 65535 and the total below 2^32, since the format has no room for more.
- Allocation failure in the two byte receivers (several branches leave partial state behind); in the container, in growth, in the registry and in module creation it is modelled.
- What happens after the app manager's handler refused a complete install request: the receiver's sections have then been destroyed while it still points at them. A handler that refuses is part of the receiver's step, but not of the statements about the link.
- Bits above the 32nd in the fifth byte of a section size are dropped by the receiver; only valid encodings are promised a result.
- FrameReceived: not for request packets that are read past their end, in unpacking or for the end of the URL, because what is dispatched depends on bytes behind the packet.
- ReadyAfterRequest: not for packets that unpack_request reads past their end, because whether they are refused depends on a byte behind the packet.
- The 32 bits of the install receiver's count of received bytes: the count is not bounded. No payload reaches that size, but a receiver that waits over many install frames could.
- The type code constants of the attribute container, the package-type probe, the PLT size and the highest bytecode section type are parameters or constants, because the headers they come from are not part of this model.
- Partial sends on the host interface, logging, responses to the host, and the disabled module kinds.
- Locks and threads: each call is one atomic step.
- Shared memories, and memories whose bounds are checked by hardware.
- In-place reallocation: growth always yields a new block, so a block that stays where it was is not told apart.
- The app heap's allocator: what it does to the bytes of its pool is a parameter.
- Data segments, element segments, table.fill and table.init, with their 32-bit sums.
- Reference globals of the C API's externref kind, which go through a table of host objects.
- The name strings of the name section; only the order of the indexes and the search are modelled.
- Releases of shared handles beyond the ones held: the count then wraps around, as the contract of Release states, and a share would succeed on an unloaded module.
- Modules are held by the engine as well until it is deleted; that list does not take part in the counting.
- The ring buffer before its initialisation, and where in the instance's memory the buffer lies.
- Floating-point intrinsics, relocations, native calls, WASI, protobuf and the JIT.
