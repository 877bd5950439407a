# rv32cortex-m, modelled in Dafny

rv32cortex-m runs foreign code (RISC-V, ARMv7-M, G4MH and others) on small hosts. This project models the parts whose
correctness is a matter of whole runs rather than of one function, and proves what they promise.

- **Guest bus** (`Words`, `BusWalk`, `BusView`, `Bus`, `BusRun`, `BusDevices`). A region table with a last-hit index and
  six fast-path caches, as a class over one flat host memory. The reference is a walk of the table with no cache at all;
  what the walk does with a device is said of devices that record their calls and of devices that are registers.
- **ELF loader** (`Elf`, `ElfFacts`, `ElfHoles`, `ElfFile`). The nested loop over untrusted headers, run on that bus. The
  reference is an ordered overlay of segments on what the guest reads, and headers written out as bytes.
- **GDB remote stub** (`Rsp`, `Regs`, `Xfer`, `MemMap`, `GdbRun`). Packet framing, the register codec, chunked object
  transfer, the memory map, and run control over a block-at-a-time backend.
- **IR optimiser and register allocator** (`Ir`, `IrFlags`, `IrTraffic`, `IrPuts`, `IrValues`, `IrRewrite`, `IrFuse`,
  `IrRetire`, `IrOpt`, `IrAlloc`). Eight passes over a block in place, then a linear scan. The reference is the IR
  interpreter; every operation the passes do not look inside is a field of the target, so the theorems hold for every
  frontend.
- **Recursive lock and scheduler** (`Lock`, `System`). The owner spinlock as interleaved atomic steps of any number of
  threads, and the round-robin step over cores that can wake one another.
- **Bits and codecs** (`Slip`, `Bits`, `Shifter`, `Clmul`, `Flags`, `Thumb`). SLIP (RFC 1055), the ARMv7-M shifter and
  immediate expansion, RISC-V carry-less multiply, lazily split flags, whole-instruction fetch.

Code that updates fields or buffers is a class or a method on arrays, proved against a function of the old state. What
the source promises is then proved about that function. `dafny verify dfyconfig.toml` checks everything.

A table row names the member whose contract states the property. "Walk" is the cacheless walk of the region table,
"view" what each guest address reads, and "means the same" equality of guest, retired count and whether the block
closes on itself, from every guest, count and leftover temps.

## Model

| member | source | states |
|---|---|---|
| Words.LoadComposes | include/emu/emu_bus.h:116-146 | a host load of 1, 2 or 4 bytes, swapped or not, is the value of the bytes in guest order |
| Words.StoreComposes | include/emu/emu_bus.h:126-146 | a host store, swapped or not, leaves bytes that read in guest order as the value cut to its size |
| Words.LoadOfStore | include/emu/emu_bus.h:116-134 | a load of a store gives the value cut to its size |
| BusWalk.ReadAfterWrite | src/emu/emu_bus.c:363-499 | on the walk, reading RAM just written gives the value cut to its size and touches no device |
| BusWalk.TableDisjoint | src/emu/emu_bus.c:95-120 | any two regions of a table that `emu_bus_add` built are disjoint |
| Bus.HitIsWalk | include/emu/emu_bus.h:415-523 | an access a valid data cache covers lies in one region, the one the walk finds, at the host byte the walk uses |
| Bus.FetchIsWalk | include/emu/emu_bus.h:462-540 | an address a valid fetch cache covers resolves for execution to that region and host byte |
| Bus.Bus.constructor | src/emu/emu_bus.c:84-88 | an empty little-endian bus whose caches are valid |
| Bus.Bus.Add | src/emu/emu_bus.c:95-120 | succeeds exactly when there is room for another, it has four bytes or more and ends inside the space, and it overlaps none; then it is appended; every cache stays valid |
| Bus.Bus.SetBigEndian | src/emu/emu_bus.c:210-228 | changes the byte order and nothing the walk reads; caches of the other order are emptied |
| Bus.Bus.Flush | src/emu/emu_bus.c:230-246 | empties all six caches, which makes any mapped bus valid |
| Bus.Bus.Find | src/emu/emu_bus.c:25-41 | finds the region the linear walk finds, whatever the last-hit index was |
| Bus.Bus.Check | src/emu/emu_bus.c:55-75 | resolves exactly as the walk: found, whole access inside, permission, width |
| Bus.Bus.ArmData | src/emu/emu_bus.c:266-279 | arming keeps every cache valid and covers the region |
| Bus.Bus.ArmRodata | src/emu/emu_bus.c:292-308 | a region that takes every width is cached whole, in the byte order in use; any other leaves the caches as they were; every cache stays valid |
| Bus.Bus.RodataHit | src/emu/emu_bus.c:315-360 | hits exactly the accesses either read-only cache covers, and each is one the walk allows, to ROM, with the walk's value in the byte order in use |
| Bus.Bus.ReadSlow | src/emu/emu_bus.c:363-438 | reply and device state are the walk's read; every cache stays valid |
| Bus.Bus.WriteSlow | src/emu/emu_bus.c:440-499 | reply, memory and device state are the walk's write; every cache stays valid |
| Bus.Bus.FetchSlow | src/emu/emu_bus.c:501-545 | reply and device state are the walk's halfword fetch; every cache stays valid |
| Bus.Bus.Read | include/emu/emu_bus.h:549-561 | where the region at the address takes all widths or none, or is not one armed for data, reply and device state are the walk's read; a covered read always succeeds |
| Bus.Bus.Write | include/emu/emu_bus.h:563-576 | under the same condition, reply, memory and device state are the walk's write |
| Bus.Bus.Fetch | include/emu/emu_bus.h:579-592 | reply and device state are the walk's fetch, on every table |
| Bus.Bus.ReadBe | include/emu/emu_bus.h:602-611 | the big-endian accessor agrees with the same walk |
| Bus.Bus.WriteBe | include/emu/emu_bus.h:613-622 | the big-endian accessor agrees with the same walk |
| Bus.Bus.FetchBe | include/emu/emu_bus.h:624-632 | the big-endian accessor agrees with the same walk, on every table |
| Bus.Bus.WidthLeak | src/emu/emu_bus.c:266-279 | for every data region that takes some widths and not others: two reads after which the cached read succeeds where the walk faults |
| BusRun.Perform | include/emu/emu_bus.h:549-632 | any one operation, cached, gives the reply and the bus of the walk |
| BusRun.Run | src/emu/emu_bus.c:84-603 | any history of adds, byte-order changes, flushes, loads, reads, writes and fetches gives the replies, memory, table and devices of the walk |
| BusDevices.ResolvedBy | src/emu/emu_bus.c:25-75 | on any table: the access at a region's base and an offset is served by that region exactly when the bytes are inside it and it allows that access at that width, and refused otherwise |
| BusDevices.UnheldRefused | src/emu/emu_bus.c:25-75 | an address no region holds is refused |
| BusDevices.CallsOfRead | src/emu/emu_bus.c:363-438 | through the accessors, whatever is cached: a read makes exactly one call, with that device's context, that offset (or host address and offset) and size, and none when it is refused or of memory |
| BusDevices.CallsOfWrite | src/emu/emu_bus.c:440-499 | so does a write, with the value cut to its size |
| BusDevices.CallsOfFetch | src/emu/emu_bus.c:501-545 | a fetch calls a passthrough region only, once, for two bytes |
| BusDevices.WriteThenRead | src/emu/emu_bus.c:363-499 | over devices that are registers: after a write at an offset of one device or passthrough region, a read at an offset of that or any other gives the value written, cut to its size, exactly where it names the same register, and otherwise what was there; memory is untouched |
| BusView.TranslationIsLookup | src/emu/emu_bus.c:20-41 | the address translation a table defines is what lookup computes, for every address |
| BusView.ChunkWalk | src/emu/emu_bus.c:574-603 | copying a run inside one region at once is copying it byte by byte |
| BusView.LoadLays | src/emu/emu_bus.c:574-603 | after a load, on any table, aliased or not, each address reads the last byte written behind its host byte, else what it read |
| BusView.OverlaysIffUnshared | src/emu/emu_bus.c:574-603 | a load of a range changes the view on exactly that range, whatever memory and bytes, if and only if no other address shares a host byte with it |
| BusView.ReadsIffOneToOne | src/emu/emu_bus.c:574-629 | a loaded range always reads back what was loaded if and only if no two of its addresses share a host byte |
| BusView.LoadOnlyBehind | src/emu/emu_bus.c:574-603 | a host byte a load changes, even one that fails part way, is behind the backed prefix of the range |
| BusView.NoAliasInjective | src/emu/emu_bus.c:122-159 | when the buffers behind RAM and ROM do not overlap, no two addresses share a host byte |
| BusView.TwoViewsShare | src/frontend/g4mh/g4mh_frontend.c:502-511 | with one buffer mapped at two bases, a load at the one is not a plain overlay |
| Bus.Bus.Load | src/emu/emu_bus.c:574-603 | succeeds exactly when the range is within 4 GB and all RAM or ROM; memory is the byte-by-byte copy up to the first unbacked address |
| Bus.Bus.Dump | src/emu/emu_bus.c:605-629 | succeeds exactly then too; the bytes are those behind the backed prefix |
| Bus.Bus.LoadThenDump | src/emu/emu_bus.c:574-629 | dump after load succeeds exactly when the load can, and returns the source when no two addresses of the range share a host byte |
| Elf.EntryInside | src/emu/emu_elf.c:152-165 | for every header accepted and every index, the whole program header lies in the file |
| Elf.FillIsLoad | src/emu/emu_elf.c:264-278 | zeroing in chunks from a fixed buffer is one load of zeros, and succeeds when that would |
| Elf.ZeroFill | src/emu/emu_elf.c:264-278 | the loop computes that fill |
| Elf.MapSegment | src/emu/emu_elf.c:206-256 | maps file bytes in place as ROM and zeroes the rest in the window; the image stays as it was |
| Elf.CopySegment | src/emu/emu_elf.c:258-279 | copies file bytes then zeros; the image stays as it was |
| Elf.PlaceSegment | src/emu/emu_elf.c:177-279 | every check and both forms of placement, with the error each failure gives |
| Elf.FailureSticks | src/emu/emu_elf.c:163-279 | once a segment fails, later ones change nothing |
| Elf.Walk | src/emu/emu_elf.c:109-290 | on any byte string: the header's error with nothing changed, or the segments in order with the error of the first failure, or the entry point |
| ElfFacts.CopiedIsContent | src/emu/emu_elf.c:258-279 | a copied segment is one load of its file bytes and zeros, and fails exactly when some byte of it is not backed |
| ElfFacts.LoadMeansOverlay | src/emu/emu_elf.c:165-279 | after n headers: no failure exactly when each segment fits, and then the view is the old one laid over by each in order; table unchanged |
| ElfFacts.UnsharedPlainly | src/emu/emu_elf.c:165-279 | where no address shares a host byte with what is written, the view is the plain overlay: those ranges and nothing else |
| ElfFacts.NoAliasUnshared | src/emu/emu_elf.c:165-279 | buffers that do not overlap meet that condition, for every image |
| ElfFacts.PlaceDecides | src/emu/emu_elf.c:177-279 | a segment is placed exactly when its checks pass, its region can join the table and its writes are backed |
| ElfFacts.MapMeansOverlay | src/emu/emu_elf.c:165-279 | after n headers with a RAM window: which table results, no failure exactly when each segment fits, the view an ordered overlay, file bytes in place |
| ElfFacts.MappedReadsFile | src/emu/emu_elf.c:206-217 | every mapped segment reads back its file bytes |
| ElfFacts.LoadElf | src/emu/emu_elf.c:292-298 | succeeds exactly when the header is accepted, there is a segment, and each fits; then the entry point, and the view the ordered overlay; the plain overlay where nothing written is shared |
| ElfFacts.MapElf | src/emu/emu_elf.c:300-310 | no window is an error; else success exactly when each segment can be placed in turn; then the table, the ordered overlay, and every mapped segment reading back its file bytes |
| ElfFile.ReadsCompose | src/emu/emu_elf.c:73-85 | a 16 or 32-bit field read is the value of its bytes in the file's order |
| ElfFile.HeaderReadsBack | src/emu/emu_elf.c:109-161 | on any image that begins with an ELF32 header written out in either order: exactly the fields written are read back, the header is accepted exactly when they suit, and the error names the field that does not |
| ElfFile.SegmentReadsBack | src/emu/emu_elf.c:165-176 | a program header written at its place in the table is read back field for field |
| ElfFile.EveryFile | src/emu/emu_elf.c:109-176 | every image whose header is accepted is such a file |
| ElfFile.LoadFile | src/emu/emu_elf.c:292-298 | said of the headers written: success exactly when they suit, some segment is to be loaded and each such is inside the file and backed; then entry and machine, and every segment's file bytes and zeros over what was there, in order |
| ElfFile.MapFile | src/emu/emu_elf.c:300-310 | said of the headers written: on success entry and machine, segments outside the window read their file bytes in place, and what is written is the copies inside it and the zeroed tails |
| ElfFile.RefusalMeans | src/emu/emu_elf.c:177-204 | the checks a segment passes, on the fields written |
| ElfHoles.GapReachesImage | src/emu/emu_elf.c:206-256 | for every table with room and every window over four unmapped addresses in a row: some segment passes every check, is mapped there and zeroes a byte of the image |
| ElfHoles.WindowPastTop | src/emu/emu_elf.c:232-253 | for every window past the top of the space, with memory at both ends: a segment whose .bss is inside the window zeroes address 0, which is not |
| GdbRun.RoundSafe | src/emu/emu_gdb.c:1253-1333 | one round, exits unchained: it goes over a breakpoint only if the exceptions due before it expose one, that is, lead to a breakpoint when the round is a step or near one when it is a block; a step that runs then does, and so does a block led to the breakpoint itself |
| GdbRun.FarEntry | src/emu/emu_gdb.c:273-282 | exceptions that lead nowhere near a breakpoint expose none, and the round goes over none |
| GdbRun.ChaseSafe | src/emu/emu_gdb.c:1253-1333 | over a whole call: an instruction past the first at a breakpoint ran only if exceptions due at the start of some round exposed it; a guest that has come to one is stopped |
| GdbRun.ExposedMisses | src/emu/emu_gdb.c:1253-1333 | and wherever they expose one, for every armed set, pc and exception target: some backend there goes over a breakpoint, within any budget |
| GdbRun.ChainedMisses | src/emu/emu_gdb.c:1301-1322 | with exits chained behind the stub, for every armed set, every breakpoint in it and every pc not near one: some backend runs over that breakpoint, with no exception due |
| GdbRun.ChaseIsStepping | src/emu/emu_gdb.c:1253-1333 | with no exception due at a round or at an instruction it ran, the call is single stepping: as many steps as instructions, the same instructions, and the same guest unless the next one faults; none between at a breakpoint, and a stop that is not the guest's own is at one |
| GdbRun.ChaseSpends | src/emu/emu_gdb.c:1253-1333 | a call that does not halt has run as many instructions as its budget or met a round that reported none; where the backend's reports are its counts that round ran none, the call reports exactly the instructions run, and had not run its budget before its last round |
| GdbRun.CountIsCard | src/emu/emu_gdb.c:231-264 | slots in use count the distinct addresses armed |
| GdbRun.SlotSet | src/emu/emu_gdb.c:241-264 | rewriting a slot takes its address out of the set and puts the new one in, and no address twice |
| GdbRun.Stub.constructor | src/emu/emu_gdb.c:1136-1148 | nothing armed, running, no reply sent |
| GdbRun.Stub.BreakFind | src/emu/emu_gdb.c:231-239 | finds a slot exactly when the address is armed |
| GdbRun.Stub.BreakAdd | src/emu/emu_gdb.c:241-255 | adds to the set; refused exactly when 16 others are armed |
| GdbRun.Stub.BreakDel | src/emu/emu_gdb.c:257-264 | takes the address out of the set |
| GdbRun.Stub.BreakNear | src/emu/emu_gdb.c:273-282 | true exactly when a breakpoint lies in the window from pc |
| GdbRun.Stub.BreakAny | src/emu/emu_gdb.c:284-292 | true exactly when one is armed |
| GdbRun.Stub.RunToBreak | src/emu/emu_gdb.c:1253-1333 | the loop computes the chase: guest, reason, instructions run, the count returned, stopped or not, one reply if stopped |
| GdbRun.Stub.Run | src/emu/emu_gdb.c:1189-1334 | nothing runs, nothing is sent and 0 is returned while halted; one instruction when stepping; with nothing armed the backend's own run and count; the chase and its count otherwise; the breakpoint guarantee is kept |
| GdbRun.Stub.Resume | src/emu/emu_gdb.c:888-914 | sets the pc if asked, clears halted, sends nothing |
| GdbRun.Stub.Interrupt | src/emu/emu_gdb.c:1060-1071 | stops the guest and sends one reply |
| GdbRun.Stub.SetBreak | src/emu/emu_gdb.c:658-700 | changes the set as asked, with the error when it is full |
| GdbRun.Stub.Attach | src/emu/emu_gdb.c:1155-1168 | halts and keeps the guarantee |
| GdbRun.Stub.Detach | src/emu/emu_gdb.c:1170-1178 | disarms everything and lets the guest run |
| GdbRun.Obey | src/emu/emu_gdb.c:888-1021 | one packet or call: the reply it owes and no other, and the guarantee kept unless links form outside |
| GdbRun.Session | src/emu/emu_gdb.c:1047-1334 | any interleaving of packets, calls, attach and detach: each running-to-stopped step of a run or Ctrl-C sends exactly one reply, resumes none; between packets only the first instruction can lie at a breakpoint, unless exceptions due at a call exposed it or links formed outside the stub |
| GdbRun.StaleLinksMissBreakpoint | src/emu/emu_gdb.c:1155-1178 | attach, run, detach, run, attach, arm, run: a chained exit runs the armed instruction |
| GdbRun.HandlerMissesBreakpoint | src/frontend/armv7m/armv7m_interp.c:2345-2374 | a breakpoint on a handler's first instruction is run over when the exception is due at the call |
| Rsp.HexRoundTrip | src/emu/emu_gdb.c:32-46 | every digit written reads back |
| Rsp.FeedAppend | src/emu/emu_gdb.c:1047-1130 | receiving two chunks is receiving their concatenation |
| Rsp.FeedPacket | src/emu/emu_gdb.c:1047-1130 | a packet escaped in any allowed way is acknowledged and dispatched unescaped exactly when its checksum holds, and refused otherwise |
| Rsp.FeedStream | src/emu/emu_gdb.c:1047-1130 | packets, right or wrong, with acknowledgements and Ctrl-C between them, give the events of each in order |
| Rsp.GdbStream | src/emu/emu_gdb.c:1047-1130 | packets of any bytes, escaped and summed as gdb does, are acknowledged and dispatched with exactly those bytes |
| Rsp.SendPacket | src/emu/emu_gdb.c:139-159 | frames the body, cut to the packet limit, with its checksum in hex |
| Rsp.SendAndReceive | src/emu/emu_gdb.c:139-159 | a body without framing bytes sent by the one is dispatched unchanged by the other |
| Rsp.Receiver.Take | src/emu/emu_gdb.c:1047-1130 | one byte moves the buffer, sum and mode as the state machine does |
| Rsp.Receiver.Receive | src/emu/emu_gdb.c:1047-1130 | a chunk does what its bytes do |
| Rsp.Receiver.ReceiveStream | src/emu/emu_gdb.c:1047-1130 | a stream cut anywhere dispatches each body once, in order, with one `+` each; a wrong checksum dispatches nothing |
| Regs.PutRegHex | src/emu/emu_gdb.c:91-102 | spells the low bytes of the register in the target's order |
| Regs.GetRegHex | src/emu/emu_gdb.c:104-121 | reads them back, stopping at the first pair that is not hex |
| Regs.SpellsBack | src/emu/emu_gdb.c:91-121 | the one undoes the other, to the register's width, in both orders |
| Regs.SpellsValue | src/emu/emu_gdb.c:91-102 | the bytes spelled, read in the target's order, are the register's value cut to its width |
| Regs.ReadRegs | src/emu/emu_gdb.c:482-497 | each register that fits at its prefix-sum offset, and the first left out is the first that does not fit |
| Regs.WriteRegs | src/emu/emu_gdb.c:500-514 | each register the body reaches gets the value at its offset, the rest none |
| Regs.ReadThenWrite | src/emu/emu_gdb.c:482-514 | writing back a reply that fits gives every register its own value, for any table of widths from 1 to 8 bytes |
| Xfer.HexToU32 | src/emu/emu_gdb.c:49-62 | the value of the longest run of digits, mod 2^32, and where it ends |
| Xfer.ParseRequest | src/emu/emu_gdb.c:791-801 | offset and length after the last colon, absent ones zero |
| Xfer.AskAndParse | src/emu/emu_gdb.c:791-801 | a request written as gdb writes it is understood, whatever the annex |
| Xfer.Serve | src/emu/emu_gdb.c:803-823 | the bytes at the offset, within the packet, `l` exactly when they reach the end |
| Xfer.ReadObject | src/emu/emu_gdb.c:763-823 | a client asking any lengths at the next offset gets exactly the object, in a bounded number of requests |
| MemMap.HexTextNumber | src/emu/emu_gdb.c:390-401 | the eight digits read back as the number |
| MemMap.MapPut | src/emu/emu_gdb.c:378-388 | appends what fits, stays in the buffer and terminates it |
| MemMap.MapEntry | src/emu/emu_gdb.c:403-417 | appends the entry's text |
| MemMap.ReadsBack | src/emu/emu_gdb.c:403-476 | a reader of the document, by attribute and type name, recovers exactly the entries, their types with them |
| MemMap.NextLowest | src/emu/emu_gdb.c:438-450 | the lowest region above the last, or none |
| MemMap.BuildMap | src/emu/emu_gdb.c:419-476 | whatever the table: whole entries in ascending order, from the table or the window, inside the buffer, with the closing tag; all of them for up to 39 regions |
| MemMap.NamedOnce | src/emu/emu_gdb.c:419-476 | no entry appears twice |
| MemMap.SkippedOverlaps | src/emu/emu_gdb.c:463-467 | a region is left out only when it overlaps the window |
| MemMap.DisjointIffBelowTop | src/emu/emu_gdb.c:419-476 | the entries are pairwise disjoint if and only if nowhere a region and the window overlap does either reach the top of the space |
| MemMap.WindowAtTheTop | src/emu/emu_gdb.c:463-467 | a region up to the top that overlaps the window is listed beside it |
| MemMap.MapBus | src/emu/emu_gdb.c:419-476 | on any bus table: the whole document, which reads back as its entries, every region not overlapping the window in it, disjoint exactly under that condition |
| Lock.StepKeeps | include/emu/emu_lock.h:45-75 | every atomic step of every thread keeps the invariant tying owner, depth and nesting, but for an unlock at a nesting above 1 that is 1 modulo 2^32 |
| Lock.OneInside | include/emu/emu_lock.h:45-75 | at most one thread is inside, and it is the owner |
| Lock.OwnerTouches | include/emu/emu_lock.h:45-75 | only the owner reads or writes depth |
| Lock.DepthIsNesting | include/emu/emu_lock.h:36-75 | outside the acquire and release windows depth is the owner's nesting modulo 2^32 |
| Lock.FreedAtOutermost | include/emu/emu_lock.h:70-75 | the lock is freed exactly at the outermost unlock |
| Lock.EveryRun | include/emu/emu_lock.h:36-75 | every interleaving of any number of threads without such an unlock keeps the invariant, and its locks and unlocks are a history of an atomic recursive mutex |
| Lock.MutualExclusion | include/emu/emu_lock.h:36-75 | no state such a run reaches has two threads inside |
| Lock.LockReturns | include/emu/emu_lock.h:45-68 | any thread in the middle of a lock, left alone with the lock free or its own, returns holding it one deeper and moves nobody else, in as many steps as are left besides failed exchanges |
| Lock.LockReturnsIff | include/emu/emu_lock.h:45-68 | from every state such a run reaches, a thread that calls lock and is left alone returns if and only if the lock is free or its own |
| Lock.NeverDeepNeverSlips | include/emu/emu_lock.h:45-75 | a run whose unlocks are all at a nesting up to 2^32 has none |
| Lock.FreesIffOne | include/emu/emu_lock.h:70-75 | an unlock frees the lock if and only if the nesting is 1 modulo 2^32, and frees one still held if and only if it is also above 1 |
| Lock.TooDeep | include/emu/emu_lock.h:70-75 | one unlock at nesting 2^32 + 1 frees a lock still held |
| Lock.TooDeepIsReached | include/emu/emu_lock.h:45-75 | a run of one thread gets there |
| System.Machine.Slice | src/emu/emu_cpu.c:151-193 | a core runs at its turn exactly when it is running, or parked with something to wake it; halted and held ones never |
| System.Machine.Step | src/emu/emu_cpu.c:195-211 | the round: final state, the retired sum mod 2^32, idle exactly when no core ran |
| System.RanIffRunnable | src/emu/emu_cpu.c:151-211 | by its status at its turn alone: a halted or held core has no slice in the round, a parked one exactly when wakeable, a running one always, even if an earlier core changed it |
| System.RanBelow | src/emu/emu_cpu.c:195-211 | each core at most once, in order |
| System.IdleIff | src/emu/emu_cpu.c:195-211 | idle exactly when no core was runnable at the start |
| System.StaysIdle | src/emu/emu_cpu.c:195-211 | an idle system stays as it is through any number of rounds |
| System.Machine.RunUntilIdle | src/emu/emu_cpu.c:195-211 | stopping at the first idle round gives the state of every later round |
| Slip.SlipEncode | scripts/slip-tun.py:168-178 | the loop computes the encoding |
| Slip.FeedAppend | scripts/slip-tun.py:229-283 | decoding two chunks is decoding their concatenation |
| Slip.Synchronises | scripts/slip-tun.py:229-283 | from every decoder state an encoded packet leaves the decoder empty, and is the last frame completed, after at most one leftover, if and only if it is not empty and fits |
| Slip.OverlongRecovered | scripts/slip-tun.py:245-283 | a packet of MTU + 1 END bytes is recovered from every decoder state, and nothing is counted as dropped |
| Slip.StreamDecodes | scripts/slip-tun.py:168-283 | from every decoder state a stream of such packets decodes to exactly that list after at most one junk frame |
| Slip.Ipv4Iff | scripts/slip-tun.py:157-165 | with the header written out: a frame is taken exactly when the version is 4, the header is five words or more and inside it, and the total length is 20 or more and inside it |
| Slip.PassedIff | scripts/slip-tun.py:157-283 | what reaches the interface is exactly the completed frames with such a header that it takes |
| Slip.Bridge.Take | scripts/slip-tun.py:229-283 | one byte: buffer and counters as the decoder, and every completed frame either sent on or counted as junk |
| Slip.Bridge.Receive | scripts/slip-tun.py:229-283 | a chunk does what its bytes do |
| Slip.Bridge.ReceiveAll | scripts/slip-tun.py:241-283 | any number of reads does what their concatenation does |
| Slip.Bridge.ReceivePackets | scripts/slip-tun.py:157-283 | IPv4 packets, however the stream is cut, all reach the interface, in order, with at most one junk frame |
| Shifter.ShiftIsPlaces | include/armv7m/armv7m_decode.h:126-167 | the closed form is the one-bit shift done `amount` times with the last bit out as carry, for LSL, LSR, ASR and ROR and every word, carry and amount |
| Shifter.RrxTurns | include/armv7m/armv7m_decode.h:126-167 | RRX turns the 33 bits of word and carry by one |
| Shifter.ImmediateShift | include/armv7m/armv7m_decode.h:93-167 | the same through the immediate decoding, zero amounts included |
| Shifter.ExpandRotates | include/armv7m/armv7m_decode.h:169-194 | the rotated immediates are 0x80 or imm7 turned one place at a time, 8 to 31 places |
| Shifter.ExpandPattern | include/armv7m/armv7m_decode.h:169-194 | the other four forms bit by bit: which byte lanes hold the byte, carry kept |
| Shifter.TimesOnes | include/armv7m/armv7m_decode.h:169-194 | the multiplication that spreads a byte is its four shifts |
| Clmul.NegatedBit | include/rv32/rv_bitmanip.h:75-78 | negating a bit gives all ones or zero |
| Clmul.ClmulLow | include/rv32/rv_bitmanip.h:80-87 | bits 0 to 31 of the product of two polynomials over GF(2) |
| Clmul.ClmulHigh | include/rv32/rv_bitmanip.h:89-96 | bits 32 to 63 of the same product |
| Clmul.ClmulReversed | include/rv32/rv_bitmanip.h:98-105 | bits 31 to 62 of the same product |
| Clmul.ReversedFromHalves | include/rv32/rv_bitmanip.h:80-105 | clmulr is clmulh shifted up with the top bit of clmul |
| Clmul.Commutes | include/rv32/rv_bitmanip.h:80-105 | every slice commutes |
| Clmul.Distributes | include/rv32/rv_bitmanip.h:80-105 | every slice distributes over XOR, on both sides |
| Clmul.ProductEnds | include/rv32/rv_bitmanip.h:89-96 | the product has no bit from 63 up |
| Flags.ItRoundTrip | include/armv7m/armv7m_cpu.h:73-82 | ITSTATE put and got round-trip and disturb no other bit |
| Flags.UpdatesApart | include/armv7m/armv7m_cpu.h:73-82 | flag updates never touch ITSTATE, nor ITSTATE the flags |
| Flags.Cpu.DoPack | include/armv7m/armv7m_cpu.h:523-532 | packing keeps the xPSR meant |
| Flags.Cpu.DoUnpack | include/armv7m/armv7m_cpu.h:534-543 | unpacking keeps it too |
| Flags.Cpu.DoGetIt | include/armv7m/armv7m_cpu.h:73-76 | ITSTATE reads the same in both forms |
| Flags.Cpu.Run | include/armv7m/armv7m_cpu.h:523-543 | any sequence of packs, unpacks, flag updates, ITSTATE updates and ITSTATE reads leaves and reads what those updates of a packed xPSR would |
| Thumb.MemFetch16 | include/armv7m/armv7m_cpu.h:658-666 | the halfword, fault or devices of the checked walk |
| Thumb.SameSpace | include/armv7m/armv7m_cpu.h:450-455 | two halfwords of one instruction have one execute permission unless it straddles a 256 MB boundary |
| Thumb.LongBits | include/armv7m/armv7m_decode.h:50-55 | from 0xE800 up is: bits 15 to 13 set, and 12 and 11 not both clear |
| Thumb.WalkIsProper | src/frontend/armv7m/armv7m_interp.c:2383-2407 | an instruction fetched by halves has length 4 exactly when its first halfword is 0xE800 or above, and is fetched only from addresses neither the MPU nor, without it, the execute-never ranges forbid; those refused for that are forbidden |
| Thumb.FetchInsnHit | include/armv7m/armv7m_cpu.h:636-656 | a hit has the length and halfwords of fetching one by one, without a fault; the length by the first halfword's value, the addresses by range |
| Thumb.FetchInsn | src/frontend/armv7m/armv7m_interp.c:2383-2407 | hit or not, what fetching halfword by halfword on the walk gives, and so proper in that sense |
| IrFlags.DeadFlagsSim | src/emu/emu_ir.c:362-386 | guests alike in the flags wanted end alike in all but the flags not wanted afterwards, the one running the block and the other what the pass left |
| IrFlags.DeadFlagsSame | src/emu/emu_ir.c:320-386 | dead flag elimination means the same to whatever reads only the flags asked for, and outright when all are |
| IrFlags.DeadFlagsExact | src/emu/emu_ir.c:362-386 | and drops exactly the definitions of which no flag is wanted before it is defined again, keeping of the others exactly the flags that are |
| IrFlags.SameForAll | src/emu/emu_ir_jit.c:206-223 | wanting all the flags is meaning the same outright |
| IrFlags.PassDeadFlags | src/emu/emu_ir.c:362-386 | the backward loop in place computes that elimination |
| IrTraffic.TrafficSim | src/emu/emu_ir.c:433-557 | with tables that are current, forwarding means the same |
| IrTraffic.TrafficSame | src/emu/emu_ir.c:433-557 | register forwarding means the same |
| IrTraffic.TrafficForwards | src/emu/emu_ir.c:464-557 | afterwards no register is read while a write or an earlier read of it in the block stands |
| IrTraffic.ForwardOne | src/emu/emu_ir.c:464-557 | one turn of the loop: the instruction and both tables |
| IrTraffic.PassRegTraffic | src/emu/emu_ir.c:464-557 | the loop in place computes the forwarding |
| IrPuts.DeadPutsSim | src/emu/emu_ir.c:636-718 | a run that owes writes catches up before anything observes them |
| IrPuts.DeadPutsSame | src/emu/emu_ir.c:598-718 | dropping overwritten register writes means the same in a forwarded block |
| IrPuts.DeadPutsExact | src/emu/emu_ir.c:636-718 | and drops exactly the writes that are overwritten before anything may look |
| IrPuts.NeedsForwarding | src/emu/emu_ir.c:636-718 | and not in every block: a write, a read of it and another write |
| IrPuts.PassDeadPuts | src/emu/emu_ir.c:636-718 | the backward loop in place computes it |
| IrValues.DeadValuesSame | src/emu/emu_ir.c:770-860 | dropping pure operations nobody reads means the same, for every block |
| IrValues.DeadValuesExact | src/emu/emu_ir.c:770-860 | and drops exactly the pure operations that nothing left after them reads |
| IrValues.PassDeadValues | src/emu/emu_ir.c:829-860 | the backward loop in place computes it |
| IrRewrite.KillSame | src/emu/emu_ir.c:1103-1253 | deleting a pure definition without readers means the same |
| IrRewrite.ReplaceSame | src/emu/emu_ir.c:1103-1253 | replacing an instruction by one that does the same wherever its operands' definitions hold means the same |
| IrRewrite.AbsorbSame | src/emu/emu_ir.c:1103-1253 | so does replacing it by one that takes in its operand's only definition and deleting that |
| IrFuse.Tabulate | src/emu/emu_ir.c:1105-1139 | uses and definition sites as the block has them |
| IrFuse.FoldAt | src/emu/emu_ir.c:1148-1201 | a lone constant that the host has an immediate form for, and no other, becomes the immediate; meaning and tables are kept |
| IrFuse.DisplaceAt | src/emu/emu_ir.c:1203-1223 | a lone address addition, and no other, becomes the displacement; meaning and tables are kept |
| IrFuse.SimplifiedSame | src/emu/emu_ir.c:1225-1251 | turning an immediate operation that is the identity, or always zero, into a move or a constant means the same |
| IrFuse.PassFuse | src/emu/emu_ir.c:1103-1253 | the whole pass means the same; every live operation left is the one on entry, a move, a constant or one the backend accepts with its aux; no constant it could fold is left, and nothing that simplifies |
| IrFuse.MacAt | src/emu/emu_ir.c:1000-1101 | a lone product beside a sum or under a difference becomes a multiply-accumulate where the backend accepts one, and nowhere else; meaning and tables are kept |
| IrFuse.PassMac | src/emu/emu_ir.c:1000-1101 | the whole pass means the same; every live operation left is the one on entry or a multiply-accumulate the backend accepts; no product it could fuse is left |
| IrRetire.MergeSame | src/emu/emu_ir.c:1276-1301 | moving a retirement into a later one, with nothing observing between, means the same |
| IrRetire.PassMergeRetire | src/emu/emu_ir.c:1276-1301 | the whole pass means the same and keeps every temp and the total; only retirements change; between any two left something may look at the count |
| IrOpt.PassCountUses | src/emu/emu_ir.c:1303-1340 | each live value's count of readers, capped at 255, and no change of meaning |
| IrOpt.Rewrite | src/emu/emu_ir.c:1496-1553 | dead flags, register traffic and fusion, in that order and each as above, mean the same to whatever reads only the flags asked for, and keep the retirements and temps; nothing the backend refuses is made |
| IrOpt.Prune | src/emu/emu_ir.c:1496-1553 | dead writes, dead values and multiply-accumulates after them, likewise |
| IrOpt.Settle | src/emu/emu_ir.c:1496-1553 | merging and counting after those, likewise, and the counts are right |
| IrOpt.Optimise | src/emu/emu_ir.c:1496-1553 | for every target, every set of flags wanted afterwards and every block a frontend hands over, the optimised block means the same but for the other flags, and outright when all are wanted; its counts are right; it is the result of all eight passes in order, an overflowed block of none; every live operation is the one on entry, a move, a constant or one the backend accepts |
| IrOpt.LoopSame | src/backend/common/interp.c:341-360 | so does running it again while it closes on itself, any number of times, whatever each leaves in the temps |
| IrOpt.LoopSettles | src/backend/common/interp.c:341-360 | where each closing pass retires something, the bound on passes is none: any two that reach the cap give the one result, at which the loop ends of itself |
| IrAlloc.FindIntervals | src/emu/emu_ir.c:1365-1406 | where each temp is defined and last read, the end being a reader |
| IrAlloc.Expire | src/emu/emu_ir.c:1436-1440 | frees exactly the registers whose interval ended |
| IrAlloc.Furthest | src/emu/emu_ir.c:1458-1464 | the register whose interval runs furthest |
| IrAlloc.AssignOne | src/emu/emu_ir.c:1436-1476 | giving a temp a register, evicting or spilling, keeps the intervals of each register apart, and leaves without one only a temp crowded out |
| IrAlloc.RegAlloc | src/emu/emu_ir.c:1357-1480 | no two temps of one register are live at once, and only registers counted as used are given; only temps read later than the next instruction have one, and such a temp goes without only if, where it or a later one begins, as many others as there are registers are live, none longer than it |
| IrAlloc.AllocSame | src/emu/emu_ir.c:1357-1480 | run out of those registers and frame slots, whatever they held, a block means the same |
| IrAlloc.Compile | src/emu/emu_ir_jit.c:215-233 | optimised by all eight passes, allocated and run out of registers, a block means what the frontend's block meant, and holds no operation the backend refuses but those it was handed |

## Findings

Properties the documentation or the neighbouring code leads one to expect, and which the code does not have. Each has
an input that shows it and, beside it, the exact condition under which it holds.

| what fails | shown by | holds exactly when |
|---|---|---|
| A cached data access allows what the walk allows. `arm_data_cache` does not look at the widths a region takes, unlike `arm_rodata_cache` (src/emu/emu_bus.c:266-308). | `Bus.Bus.WidthLeak`, for every such region | every readable, writable, executable RAM region takes all widths or none: `BusRun.Run` |
| A load changes only the range it names. G4MH maps one buffer at two bases (src/frontend/g4mh/g4mh_frontend.c:502-511). | `BusView.TwoViewsShare` | no address outside shares a host byte with the range, and none inside with another: `BusView.OverlaysIffUnshared`; `BusView.LoadLays` says what happens otherwise |
| Mapping leaves the image and all memory outside the RAM window alone. A mapped segment's file bytes may land in a part of the window no region holds, and the zeroing of a .bss wraps at the top of the space (src/emu/emu_elf.c:206-256). | `ElfHoles.GapReachesImage`, `ElfHoles.WindowPastTop` | the window ends inside the space, and the table is full or no four unmapped addresses in a row meet the window (`Elf.Covered`): `ElfFacts.MapElf` |
| An armed breakpoint stops the guest, across detach and attach. `unchained` survives both, while links form in between (src/emu/emu_gdb.c:1155-1178). | `GdbRun.StaleLinksMissBreakpoint` | the stub's belief that exits are unchained is not stale, which only a run past the stub makes it: `GdbRun.Session`; while it is, some backend goes over any breakpoint the guest is not near: `GdbRun.ChainedMisses` |
| An armed breakpoint stops the guest, when an exception is taken. A step or block that takes one goes on to run the handler's first instructions in the same call (src/frontend/armv7m/armv7m_interp.c:2345-2374, src/emu/emu_jit.c:1709-1716). | `GdbRun.HandlerMissesBreakpoint` | the exceptions due before a round do not lead away from the pc to a breakpoint, when one is near the pc and the round is a step, or to where one is near, when it is a block: `GdbRun.RoundSafe`; where they do, some backend goes over it: `GdbRun.ExposedMisses` |
| Memory-map entries are disjoint. The sums that compare a region with the flash window wrap at the top of the space (src/emu/emu_gdb.c:463-467). | `MemMap.WindowAtTheTop` | nowhere a region and the window overlap does either reach the top: `MemMap.DisjointIffBelowTop` |
| The recursive lock is freed at the outermost unlock. Its depth is 32 bits wide (include/emu/emu_lock.h:36-75). | `Lock.TooDeep`, reached by `Lock.TooDeepIsReached` | no unlock is at a nesting above 1 that is 1 modulo 2^32: `Lock.EveryRun`, `Lock.FreesIffOne` |
| Dropping overwritten register writes is sound by itself (src/emu/emu_ir.c:636-718). | `IrPuts.NeedsForwarding` | one way: after the forwarding pass, which establishes what it needs (`IrTraffic.TrafficForwards`, `IrPuts.DeadPutsSame`) |
| A frame longer than the MTU is dropped. Bytes that travel escaped are appended without the length test (scripts/slip-tun.py:245-283). | `Slip.OverlongRecovered` | the packet is recovered if and only if it is not empty and every byte past the MTU is one that travels escaped: `Slip.Synchronises` |

## Left out

- Instruction interpreters, host code generation, the code cache and its eviction: the backend is a parameter that steps and runs.
- BusDevices.WriteThenRead: devices that keep what is written; what real ones do with it is theirs.
- Peripherals, MMUs and the MPU's own region decision: devices and permissions are parameters of the bus and the fetch.
- The bus fault counter, passthrough access counter and epoch: they are counted and read by nothing modelled.
- Weak memory ordering in the lock: its atomic operations are steps in one total order.
- gdb commands other than resume, breakpoint, register and object transfer, and flash callbacks: text handling around calls out of the stub.
- The stub's no-acknowledgement mode: acknowledgements are always sent.
- Optimiser statistics, and the lock that guards them.
- Opening the serial line and the tunnel: a refused write to the tunnel is a parameter.
- Floating-point immediate expansion (include/armv7m/armv7m_decode.h:196-202): one bit rearrangement.
- BusRun.Run: tables are those whose data regions take all widths or none, the exact condition the findings give.
- Elf.Walk: no address the file's own segments write has bytes of the image behind it, since the walk reads the image as it goes and copies from it with memcpy, whose ranges may not overlap; other addresses may.
- ElfFacts.LoadElf: the same.
- ElfFacts.MapElf: the same, and a RAM window no region can be added over, the condition the findings give.
- ElfFile.LoadFile: as `ElfFacts.LoadElf`; `ElfFile.EveryFile` says no accepted image is left out.
- ElfFile.MapFile: as `ElfFacts.MapElf`, which also says exactly when it succeeds.
- ElfHoles.GapReachesImage: a gap at the very start of a window of 4 GB less one byte is left out; a segment there cannot reach past the window's end, and is copied.
- ElfHoles.WindowPastTop: the other way is not exact; a window that begins in the last 255 bytes of the space does not wrap.
- GdbRun.Session: the backend steps one instruction, and unchained runs one block inside the 4096-byte window from where it starts, that being the pc or where the exceptions due lead; exceptions taken after the first instruction end the call.
- GdbRun.Stub.Run: the count of instructions retired does not wrap at 32 bits within one call.
- GdbRun.ChaseIsStepping: the block backend agrees with the stepper on each block in which no exception falls due, which is the translator's own contract, and a step of a stopped guest changes nothing.
- Rsp.SendAndReceive: the body holds no framing or escape byte, which the sender never escapes; the stub sends hex and text.
- Rsp.FeedPacket: bodies up to the 1024 bytes the stub announces.
- Regs.ReadThenWrite: the whole reply is within a packet; `Regs.ReadRegs` says what is sent when it is not.
- Xfer.ReadObject: the object is shorter than 2^32 bytes, its length being a 32-bit count.
- IrOpt.Optimise: blocks as the builder makes them (a temp written once and before it is read, EXIT last, register writes with an operand, flags wanted whole), retiring fewer than 2^32 instructions.
- IrFuse.PassFuse: that nothing foldable is left is said of blocks of up to the 2048 instructions a block holds; definition sites past 0xFFFE look absent.
- IrFuse.PassMac: the same.
- IrOpt.LoopSame: a bound on passes stands in for the source's endless loop over blocks that retire nothing; the cap on instructions retired in a looping block is counted without wrap.
- IrPuts.DeadPutsSame: one way only, since whether a write is read again is a matter of every target's register file.
- IrAlloc.RegAlloc: temps numbered in the order they are written, as the builder numbers them.
- IrAlloc.AllocSame: the reload elision for values read by the next instruction, which never reach a register or slot, is the lowering's.
- Slip.Bridge.ReceivePackets: packets that are IPv4 and that the tunnel takes.
