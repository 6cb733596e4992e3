# Verified models of virt_learn_program

The repository is a set of virtualization exercises: a virtio driver and its QEMU device, a boot
image that builds page tables and prints on a text console, a KVM monitor that runs the image, and
an SVM module. This project models the parts that carry state, loops or arithmetic and proves what
they do for every input, every run or every reachable state.

| file | models |
|---|---|
| `VirtioProtocol.dfy`, `VirtioProofs.dfy`, `VirtioDevices.dfy` | driver and device as one protocol over two virtqueues; the objects themselves |
| `VirtioFailures.dfy` | what the user meets when an assumption of the protocol fails |
| `VirtioCapacity.dfy` | what callbacks give back, when operations are refused, how much the ring and the stack take |
| `PageTables.dfy`, `InitPaging.dfy` | the four-level walk, the intended tables and address map; the code that builds them |
| `Cpuid.dfy`, `CpuidTable.dfy` | the builder of the CPUID table; what the table contains |
| `TextLayout.dfy`, `Console.dfy` | the layout of a text in rows; guest cursor, host exit handler and hex printer |
| `Msrpm.dfy` | the MSR permission map |
| `BootLoader.dfy` | sector numbers in BIOS registers, drive geometry, the load loop |
| `Descriptors.dfy` | interrupt gates and system descriptors built from overlapping stores |
| `Numerals.dfy`, `SizeOption.dfy` | hexadecimal digits; the size option of the monitor |
| `Basics.dfy` | shared types |

## What is proved

**A stack behind two rings.** Each C function of the driver and the device is a step on one joint
state; a step that would use a null or freed pointer, index outside an array or free twice is a
fault. For every schedule in which file operations do not overlap, kicks arrive in order with one
handler call each and meet a running VM with ready queues, the host's `malloc` succeeds, receive
interrupts are not spurious, and each accepted write copies a byte and finds a free descriptor, no
step faults and the user sees a stack of byte strings, although the device consumes writes later. The
counters agree with the rings in every state, each allocation has one owner, and nothing leaks: as many
transmit callbacks as there are used buffers free them all. The ring takes 256 writes that the device has not
seen, the stack 1024 unread items, and no more. A sleeping
read completes: in every run that goes on for a known number of steps it returns the top of the stack before
anything else is seen.

For all of these conditions but the first two (overlapping file operations, and kicks out of order) it is
also proved what happens when they fail. A write that copies no byte or finds the ring full makes the device
pop a null element when it reaches it, and no other write does. After a lost receive kick the reader sleeps
through every continuation. After a lost transmit kick (two that are coalesced amount to one lost) the read
that sleeps behind it, or else the next one, faults if and only if there is no item below the top or that item
is shorter; otherwise it returns a prefix of the item below. A spurious receive interrupt makes a sleeping read
fault; with no reader, the next read faults, or finds nothing although there is an item, according to whether
the stack had no item, one or more. A host `malloc` that fails is a fault of the transmit handler. A read
returns more bytes than the user asked for if and only if the top item is longer than that count, which `read`
ignores.

**Address map.** For every initial memory, after `init_paging` on the boot processor the hardware walk
of every 64-bit address is one closed-form map, and every dword of memory is known: a literal value in the
table pages, unchanged elsewhere. The map is injective, user code reaches no kernel
frame, and every page is backed by exactly one host memory slot or device window. Two entries are
written without the present bit (lines 116 and 127), so they map nothing.

**CPUID table.** For every processor the builder ends. With the standard leaves below the extended ones
and subleaf 63 of leaf 0xd empty an entry is in the table if and only if a predicate on the processor's
answers, with literal leaf numbers, wants it; the entries are in increasing order, and the builder gives
up if and only if more than 100 subleaves are listed, or 100 of them before the last leaf, or the extended
limit is 2^32-1. For every processor the order holds exactly when that subleaf is empty, if leaf 0xd
is visited, and no leaf that is not all zero is visited by both loops; with a non-empty subleaf 63 a blank
record stays behind the records of leaf 0xd. At the limit 2^32-1 the loop counter starts over: in the first loop every turn
takes a slot, so it runs out of slots; the second one does exactly when it has no slot left to start with or
some leaf is not all zero, which the leaf that reports such a limit is.

**Console.** What the monitor's video branch prints is the guest's text cut at newlines and at 80 columns,
each row that shows something on a line of its own, up to the last cell the guest writes. The hex printer
prints any number of digits, starting over after sixteen.

**Smaller parts.** The permission map is last-call-wins in the architecture's layout. The boot loader
addresses the right sector exactly when the upper half of `%eax` is clear (or in the first cylinder), its
loop ends exactly for totals below 65536 or with a low half of 1 modulo 32, and it loads the image exactly
when the total is between 33 and 1985. The first checked read that fails is the last request; the requests
before it are given one by one. Gates decode to the last handler installed. The size option accepts
exactly a numeral, a suffix and anything that does not go on with a letter, and a size below 2^64 is sure to
be read correctly, whatever the uninitialised local holds, exactly when its numeral has no digit F.

## Assumptions and readings

- The driver's kick (`virtio/virtio_custdev.c:238-243`) is a stub. That a kick reaches the QEMU device, and
  a used element the driver's callback, is assumed. Queue 0 is the driver's `vq_tx` and is served by
  `virtio_custdev_handle_outbuf`, queue 1 by `virtio_custdev_handle_inbuf`; ring ownership is that of
  section 2.6 (Split Virtqueues) of VIRTIO 1.1.
- The rings have 256 entries, as the driver creates them (`virtio/virtio_custdev.c:18` and `:252`), although the
  device registers queues of 64 (`virtio/virtio-custdev.c:101-102`).
- Allocators return null or memory that is not in use; which, is a parameter. Partial user copies are parameters.
- A write returns 28 or 1 when it is refused, which a user cannot tell from a short write; the model
  keeps the code and returns the distinction separately.
- CPUID, the BIOS and the KVM exits are parameters. The compiler's CPUID wrappers leave their outputs alone when a
  leaf is not available; the model has that as a parameter too. The cases for leaf 0x1f inside the loop are never reached.
- Without an operand size, `add` and `sub` on `start_sector` and `total_sectors` (`asm/pre_run.S:77-78`) are
  16-bit, the default of the assembler in 16-bit code.
- The comment at `asm/page64.S:126` calls all code addresses identity-mapped; pages 0 to 8 and 0x1a to 0x1f are not.

## Model

| member | source | states |
|---|---|---|
| `VirtioProofs.RunsImplementStack` | virtio/virtio_custdev.c:44-122 | every legal run from probe is fault free, keeps the invariant, and is a history of one stack of byte strings |
| `VirtioProofs.ReadsLatestUnread` | virtio/virtio_custdev.c:44-104 | in every legal run each completed read returns a prefix (the whole, if the user copy succeeds) of the latest unread write, the writes and reads between them cancelling out |
| `VirtioProofs.RunGood` | virtio/virtio_custdev.c:44-122 | the same from any state that satisfies the invariant |
| `VirtioProofs.StepGood` | virtio/virtio-custdev.c:46-95 | each enabled step keeps counters, lengths, kicks and ownership, and is one stack operation |
| `VirtioProofs.ReadMustComplete` | virtio/virtio_custdev.c:60-74 | in every legal run with more steps of device, interrupt and reader than are outstanding, a sleeping read returns the top item, less what the user copy missed, before anything else is seen |
| `VirtioProofs.ReadCompletes` | virtio/virtio_custdev.c:60-74 | such a run exists from every state with a sleeping read, and returns the whole item |
| `VirtioFailures.WriteExact` | virtio/virtio_custdev.c:82-103 | an accepted write keeps the invariant if and only if it copies a byte and the ring has room |
| `VirtioFailures.WriteFaultsDevice` | virtio/virtio-custdev.c:60-62 | the device, popping one element per kick, faults at that write if and only if it should not have been accepted, however many elements are ahead of it |
| `VirtioFailures.LostReceiveKick` | virtio/virtio-custdev.c:76-84 | after a receive kick that is dropped, the reader is still asleep at the end of every legal run, which shows nothing |
| `VirtioFailures.EmptyWriteBreaks` | virtio/virtio_custdev.c:90-103 | for example, an empty write to a fresh device |
| `VirtioFailures.LostTransmitKick` | virtio/virtio-custdev.c:50-58 | after a transmit kick that is dropped, with the others handled, the read that sleeps behind them, or else the next one, faults if and only if there is no item below the top or it is shorter than the top; otherwise it returns a prefix of that item |
| `VirtioFailures.InterruptExact` | virtio/virtio_custdev.c:115-122 | a receive interrupt keeps the invariant if and only if there is a used element |
| `VirtioFailures.SpuriousWakes` | virtio/virtio_custdev.c:64-66 | without one, a sleeping read wakes and copies from a null pointer |
| `VirtioFailures.SpuriousForgets` | virtio/virtio_custdev.c:50-66 | without one and without a reader, the next read indexes outside the array, finds nothing, or copies from a null pointer, when the stack had no item, one, or more |
| `VirtioFailures.HostMemoryExact` | virtio/virtio-custdev.c:60-62 | the transmit handler faults if and only if its allocation fails |
| `VirtioFailures.DeliversTop` | virtio/virtio_custdev.c:60-74 | every schedule that completes a read returns the whole top item |
| `VirtioFailures.ReadCountExact` | virtio/virtio_custdev.c:64-66 | a read can return more than `count` bytes if and only if the top item is longer than `count` |
| `VirtioProofs.NothingLeaks` | virtio/virtio-custdev.c:106-115 | unrealize frees each remaining host copy once and leaves none; an idle guest holds no buffer |
| `VirtioDevices.Driver.Write` | virtio/virtio_custdev.c:76-104 | the driver object does the write step; return value and acceptance |
| `VirtioDevices.Driver.OutbufCallback` | virtio/virtio_custdev.c:106-113 | takes the first used buffer off the ring and frees it, or does nothing on a spurious call |
| `VirtioCapacity.CallbackFrees` | virtio/virtio_custdev.c:106-113 | a callback frees exactly the first used buffer and changes nothing else |
| `VirtioCapacity.CallbacksDrain` | virtio/virtio_custdev.c:106-113 | as many callbacks as there are used buffers empty the used ring; a guest with nothing else under way then holds no memory |
| `VirtioCapacity.WriteRefusalExact` | virtio/virtio_custdev.c:82-90 | a write is refused with 28 if and only if 1024 items are unread, with 1 if and only if there is room but no memory |
| `VirtioCapacity.ReadRefusalExact` | virtio/virtio_custdev.c:50-58 | a read returns 0 if and only if there is no item, -12 if and only if there is one but no memory |
| `VirtioCapacity.ReadBuffer` | virtio/virtio_custdev.c:55-61 | a sleeping read has a clear buffer of the size of the top item |
| `VirtioCapacity.ReturnedLength` | virtio/virtio_custdev.c:64-73 | a finished read uses one completion and leaves the returned length, and no other change, in `buf_lens` |
| `VirtioCapacity.RingTakes256` | virtio/virtio_custdev.c:97-102 | 256 writes that the device has not seen fill the ring; the next is accepted but not on the ring |
| `VirtioCapacity.StackTakes1024` | virtio/virtio_custdev.c:82-85 | a legal run takes 1024 unread writes, and every further write is refused with 28 |
| `VirtioDevices.Driver.ReadStart` | virtio/virtio_custdev.c:50-62 | the read step up to its sleep, and both early returns |
| `VirtioDevices.Driver.InbufCallback` | virtio/virtio_custdev.c:115-122 | takes the used element, counts down and completes |
| `VirtioDevices.Driver.ReadFinish` | virtio/virtio_custdev.c:64-74 | copies out, shortens on a partial copy, frees, returns the length |
| `VirtioDevices.Device.HandleOutbuf` | virtio/virtio-custdev.c:46-69 | the device object does the transmit step, or drops the kick |
| `VirtioDevices.Device.HandleInbuf` | virtio/virtio-custdev.c:71-95 | the device object does the receive step, or drops the kick |
| `VirtioDevices.Device.Unrealize` | virtio/virtio-custdev.c:106-115 | the loop frees the stored copies in order |
| `VirtioDevices.Session` | virtio/virtio_custdev.c:44-122 | driver and device objects run any legal schedule and show the user a stack |
| `InitPaging.GuestMemory.Clear4KPage` | asm/page64.S:17-31 | the counting-down loop clears exactly one page |
| `InitPaging.GuestMemory.Clear4KPages` | asm/page64.S:36-45 | the page loop clears exactly `edi` pages, also none |
| `InitPaging.GuestMemory.InitPaging` | asm/page64.S:48-206 | on the boot processor every dword of the table pages has its literal value, every other dword is unchanged, and every address translates by the closed form; otherwise nothing changes |
| `PageTables.TableDword` | asm/page64.S:67-203 | the entries in memory are these dwords, by address |
| `PageTables.EncodeDecode` | asm/page.h:23-30 | the flag bits and page number of an entry survive its encoding |
| `PageTables.TranslateIsAddressMap` | asm/page64.S:67-203 | the hardware walk of any address over the built tables is the closed form, with access rights and memory type (index into the page attribute table) |
| `PageTables.TranslationInjective` | asm/page64.S:67-203 | two linear addresses never reach the same physical byte |
| `PageTables.UserIsolation` | asm/page64.S:67-203 | a mapped address is denied to user code if and only if it leads to tables, system data, IST or kernel stacks, or the APIC |
| `PageTables.EveryPageBacked` | vm.c:457-477 | every mapped byte has exactly one backing: slot 1, slot 2 or one of three device windows |
| `Cpuid.Builder.Enumerate` | vm.c:213-249 | the loop for leaves 4, 0xb and 0xd fills the slots of the recursive specification, or fails with it |
| `Cpuid.Builder.Count` | vm.c:250-272 | the same for leaves 7 and 0x14 |
| `Cpuid.Builder.Plain` | vm.c:273-280 | a plain leaf takes one slot, or gives it back clean when all zero |
| `Cpuid.Builder.AddStandardLeaves` | vm.c:205-282 | the first loop ends for every 32-bit limit, with the specified table or failure below 2^32-1 and with failure at it; free slots stay clear between leaves |
| `Cpuid.Builder.AddExtendedLeaves` | vm.c:286-300 | the same for the second loop, whose leaves are all plain; at the limit 2^32-1 under the condition of `CpuidTable.PlainLapsExact` |
| `Cpuid.VmInitCpuid` | vm.c:188-307 | result and failure of the whole builder for every processor, and at most 100 entries |
| `CpuidTable.TableIsListing` | vm.c:203-302 | the table is the increasing enumeration of exactly the listed subleaves; failure if and only if they do not fit, or fill the table before the last leaf, or the extended limit is 2^32-1 |
| `CpuidTable.TableExact` | vm.c:203-302 | an entry is in the table if and only if the processor's answers, by literal leaf number, want it: which subleaves, which flag, which registers, where an enumeration stops |
| `CpuidTable.LevelsTable` | vm.c:233-235 | for example, the table of a processor with two levels in leaf 0xb, whose third answer has only a low byte |
| `CpuidTable.LapsRunOut` | vm.c:205-232 | at the limit 2^32-1 the first loop, from any table, is out of slots before its counter has started over 101 times |
| `CpuidTable.PlainLapsExact` | vm.c:286-300 | at that limit the second loop runs out of slots if and only if it starts without one or some 32-bit leaf is not all zero |
| `CpuidTable.TableKeepsBlank` | vm.c:216-247 | a non-empty subleaf 63 of leaf 0xd leaves a blank record directly after a record of leaf 0xd, out of order |
| `CpuidTable.BlankTable` | vm.c:216-247 | a processor on which that happens, with its whole table |
| `CpuidTable.OrderExact` | vm.c:203-302 | for every processor the order is increasing if and only if that subleaf is empty, when leaf 0xd is visited, and no leaf that is not all zero is visited by both loops |
| `CpuidTable.ExtendedPlain` | vm.c:286-300 | the second loop adds what the first would for the same leaves: the special cases do not arise above 0x80000000 |
| `TextLayout.RowsExtend` | asm/libs64.S:74-95 | one more character changes only the end of the layout |
| `TextLayout.TranscriptExtend` | vm.c:593-598 | what one more character adds to the transcript |
| `Console.TextOnScreen` | asm/libs64.S:74-146 | after any text the transcript is its layout and the cursor is at its end |
| `Console.CursorEven` | asm/libs64.S:74-95 | the cursor stays on a cell |
| `Console.PutAllJoin` | asm/libs64.S:127-146 | consecutive outputs are one output of the joined text |
| `Console.Host.MmioExit` | vm.c:591-616 | which exits are video exits, which one is the test page, and what they add to the video transcript |
| `Console.Guest.GetCurrentColumn` | asm/libs64.S:55-66 | the byte column, with unsigned wrap-around |
| `Console.Guest.WriteChar` | asm/libs64.S:74-95 | newline, store and limit branches; every store reaches the video branch of the host |
| `Console.Guest.Putc` | asm/libs64.S:101-104 | the low byte is put out; the cursor does not move back |
| `Console.Guest.Puts` | asm/libs64.S:127-146 | the bytes before the terminator are put out, none for a null pointer |
| `Console.Guest.PrintHexByByte` | asm/libs64.S:169-186 | prints n hexadecimal digits, first digit first, for every 64-bit n: the last n, or the sixteen digits over and over; 0 stands for 2^64 |
| `Console.Guest.PrintByteValue` | asm/libs64.S:192-197 | a byte is printed as its two hexadecimal digits |
| `Console.Guest.PrintQwordValue` | asm/libs64.S:227-232 | a 64-bit value is printed as its sixteen hexadecimal digits |
| `Console.GetByteHexString` | asm/libs64.S:237-252 | the same two digits as the byte printer, terminated, in the buffer |
| `Numerals.HexRoundTrip` | asm/libs64.S:155-186 | the printed digits stand for the value modulo 16^n |
| `Msrpm.SvmMsrpmOffset` | vmx_mod/vmx.c:410-429 | finds the range of an MSR if there is one, and its word |
| `Msrpm.SetMsrInterception` | vmx_mod/vmx.c:432-450 | changes the two bits of one MSR, or nothing for an MSR outside the map |
| `Msrpm.LayoutAgrees` | vmx_mod/vmx.c:410-441 | word and bit of the code are byte and bit of section 15.11 of the AMD64 APM Vol. 2 |
| `Msrpm.LayoutInjective` | vmx_mod/vmx.c:404-429 | two MSRs never share a bit |
| `Msrpm.LastCallWins` | vmx_mod/vmx.c:432-450 | after any calls each MSR has the intercepts of its last call, or the initial ones |
| `Msrpm.OtherBitsKept` | vmx_mod/vmx.c:432-450 | bits of no called MSR keep their value |
| `Msrpm.WordsFit` | vmx_mod/vmx.c:441-449 | the entries stay 32-bit words |
| `BootLoader.DoLbaToChs` | asm/pre_run.S:26-50 | the registers after the two divisions, with the stale upper half of `%eax` in the divisor, or a divide error if and only if a divisor is zero |
| `BootLoader.ChsExact` | asm/pre_run.S:26-50 | the registers address the sector if and only if that half is clear or the sector is in the first cylinder |
| `BootLoader.GetDriverParameters` | asm/pre_run.S:109-118 | heads, sectors and cylinders from the BIOS registers |
| `BootLoader.GeometryExact` | asm/pre_run.S:109-118 | the geometry comes back as reported if and only if there are at most 255 heads |
| `BootLoader.DivisionExact` | asm/pre_run.S:26-41 | after reading the geometry, sector numbers are divided by zero if and only if there are 256 heads and the upper half of `%eax` is clear |
| `BootLoader.LoadExact` | asm/pre_run.S:68-97 | for every 32-bit total the image is loaded, each sector once and in place, if and only if 33 <= total <= 1985 |
| `BootLoader.LoopEndsExact` | asm/pre_run.S:81-91 | for every 32-bit total the loop ends if and only if the high half is zero or the low half is 1 modulo 32 |
| `BootLoader.Loader.ReadSectorWithChs` | asm/pre_run.S:53-63 | asks for the sector of `start_sector` and keeps the upper half of `%eax` clear |
| `BootLoader.Loader.LoadModule` | asm/pre_run.S:68-97 | the first checked read that fails is the last request, and the code fails if and only if there is one; if none fails, all requests are made and, within the disk, are exactly the image if and only if 33 <= total <= 1985 |
| `BootLoader.RequestsInOrder` | asm/pre_run.S:69-88 | request k asks for which sectors and where to, for every k |
| `BootLoader.RestInPlace` | asm/pre_run.S:93-95 | the last request asks for what is left, at the next place |
| `Descriptors.SetInterruptHandler` | asm/libs64.S:283-307 | memory after the five overlapping stores, kernel and user form, for the decoding lemmas |
| `Descriptors.InstallDecodes` | asm/libs64.S:283-292 | the gate decodes to handler, selector 0x28, IST 0 and type; all other gates are unchanged |
| `Descriptors.KernelSelector` | asm/system_data.h:10-20 | that selector is the one of the only present 64-bit code segment of privilege level 0 in the table at `asm/table_desc.S:16-33` |
| `Descriptors.LastInstallWins` | asm/libs64.S:283-307 | after any installs each gate holds the last handler of its vector |
| `Descriptors.SetSystemDescriptor` | asm/libs64.S:259-276 | the stores of a system descriptor, with byte 6 arbitrary |
| `Descriptors.SystemDescriptorDecodes` | asm/libs64.S:259-272 | base and type survive the overlapping stores, the low limit word is that of the limit in bytes below 4096 and in pages above, and no other byte changes |
| `SizeOption.ParseSize` | vm.c:111-168 | the digit loop, the checks and the suffix, as the function that `ParseAccepts` and `ParseMeans` describe |
| `SizeOption.ParseWritten` | vm.c:124-168 | every numeral with a suffix is accepted, also with more after it, and read with the digit values of the loop, modulo 2^64 |
| `SizeOption.ParseWithoutF` | vm.c:124-168 | without a digit F that is the positional value times the multiplier |
| `SizeOption.ParseAccepts` | vm.c:113-168 | by ASCII code, the strings accepted are exactly a numeral, one of K, M, G in either case, and nothing or a character that is not a letter with anything after it |
| `SizeOption.ParseMeans` | vm.c:150-164 | what is read is the loop's number times 1024, 1024^2 or 1024^3, modulo 2^64 |
| `SizeOption.EffectiveAt` | vm.c:124-138 | each digit counts for what it is, except that an F repeats the digit before it |
| `SizeOption.ParsePlain` | vm.c:124-164 | without a digit F the option is the positional value times the unit, modulo 2^64 |
| `SizeOption.GExample` | vm.c:161-163 | `1G` is 2^30 |
| `SizeOption.ParseExact` | vm.c:131-138 | a size that fits 64 bits is read correctly whatever `val` holds at first if and only if it has no digit F |
| `SizeOption.ParsePrinted` | vm.c:124-168 | what the hex printer prints is read back |
| `SizeOption.FExample` | vm.c:131-136 | `0x1FK` is read as 0x11 K |

## Left out

- Overlapping file operations, kicks out of order, and the removal of the driver during a read: outside the protocol's assumptions.
- virtio probe, feature, status and virtqueue creation code: registration with the kernel and QEMU.
- A write of 4 GB or more: taken as an allocation that fails.
- BootLoader.Loader.LoadModule: the status of the last, partial read is not checked by the code and not used.
- Console.Host.MmioExit: the text that the test-page branch and the fatal branch print is not modelled; the transcript is that of the video branch.
- Console.Guest.Puts: a cursor that would pass 2^64 is excluded; it takes more than 10^17 newlines.
- Msrpm.SetMsrInterception: the code reads `msrpm[MSR_INVALID]` before its `BUG_ON`; the model stops at the `BUG_ON` without that read.
- Descriptors.SetSystemDescriptor: byte 6 (upper limit bits and flags) is arbitrary, because a 16-bit double shift by 17 has no defined result.
- The walk does not model accessed and dirty bits, execute-disable, or the TLB.
- vfio.c, eventfd and interrupt routing set-up, VMCS and VMCB field copying, APIC and exception message printing: calls and copies without logic of their own.
- Mode switching, control-register writes and BIOS services: hardware effects.
