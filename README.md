# CheckIDT in Dafny

A model of CheckIDT, fG!'s OS X port of kad's integrity checker for the
interrupt descriptor table (IDT). Its C sources are idt.c, kernel.c,
main.c and global.h. The model proves properties of four parts:

- **The descriptor codec.** This is the 16-byte packed `struct descriptor_idt`
  as it lies in kernel memory and in an archive file. It also covers how the
  walks turn a record into a stub address: with C's integer promotions, the
  sign-extension of `offset_middle << 16` included. It covers the gate type,
  DPL and segment name that show_idt_info prints, the IDTR image SIDT stores,
  and the patch restore mode writes back (module `Descriptors`, on top of
  `LittleEndian`).
- **Kernel memory.** This is `/dev/kmem` as a `class Device` holding a byte
  array at a base address. `readkmem` and `writekmem` are its methods, and a
  read or write outside the array takes the source's exit path
  (`KernelMemory`).
- **The table walks** (`Idt`, `IdtCompare`):
  - show_idt_info, for the single interrupt and for `-A`;
  - create_idt_archive and read_idt_archive, the latter including the stale
    buffer fread leaves once the file is exhausted;
  - compare_idt, in report mode and in restore mode.

  Each walk is a method with a loop. It is proved equal to a recursive
  function, and the properties are lemmas about that function.
- **The kernel side and the driver.** The kernel side covers get_kernel_type
  and get_kernel_version (`KernelProbe`). It also covers the Mach-O 64 walk of
  retrieve_kernel_symbols and the lookup of resolve_symbol (`Symbols`). The
  driver is main (`Driver`): the getopt loop folded into `struct config`, the
  probes and the kernel-type gate, `idt_entries`, the optional symbol load,
  and the five flag-guarded calls in their fixed order. `Driver.Run` is proved
  equal to `Driver.MainOutcome`, and the lemmas about MainOutcome state how
  main ends and what it may write.

Three things come from the outside:

- **Host values.** What the system answers is a value of `Driver.Host`:
  - hw.machine, as a string (kern.osrelease is the parameter of `KernelProbe.KernelVersion`, which main never calls);
  - the 10 bytes SIDT stores;
  - the KASLR slide;
  - whether `/dev/kmem` opens;
  - the bytes of `/mach_kernel`;
  - whether the output file can be created.
- **Files.** The archive files are a map from names to sequences of 16-byte
  records.
- **Output.** Printed lines are values: rows, entries, messages and events.

All integers are unbounded. The source's 32- and 64-bit arithmetic is written
out where it matters: `16*interrupt` as an `int`, the `unsigned long` stub
sums, and `stub_addr - kaslr_slide`.

## Model

| member | source | states |
|---|---|---|
| Global.SelectorRelations | global.h:57-73 | the relations the selector table states in its comments: KERNEL64_SS = KERNEL64_CS + 8, USER_DS = USER_CS + 8, USER64_CS = USER_CS + 16, USER64_DS = USER_DS, SYSENTER_DS = KERNEL64_SS, SYSENTER_TF_CS = USER_CS \| 0x10000 |
| Global.TagsDistinct | global.h:50-71 | the three selectors get_segment names are pairwise distinct, and X86 differs from X64 |
| LittleEndian.EncodeZero | global.h:106-115 | zero is encoded as n zero bytes |
| LittleEndian.DecodeEncode | global.h:106-115 | decoding the n-byte little-endian image of v gives v back |
| LittleEndian.EncodeDecode | global.h:106-115 | encoding the value of a byte sequence at its own length gives the sequence back |
| LittleEndian.DecodeAppend | global.h:106-115 | the value of a concatenation is the value of the first part plus 256^len times the value of the second |
| Descriptors.U16Bytes | global.h:108 | a uint16_t field is 2 bytes whose little-endian value is the field |
| Descriptors.U32Bytes | global.h:113 | a uint32_t field is 4 bytes whose little-endian value is the field |
| Descriptors.U64Bytes | idt.c:77 | a 64-bit value is 8 bytes whose little-endian value is the value |
| Descriptors.EncodeLayout | global.h:106-115 | the packed record is 16 bytes: offset_low is bytes 0-1; seg_selector 2-3; reserved 4; flag 5; offset_middle 6-7; offset_high 8-11; reserved2 12-15 |
| Descriptors.DecodeEncodeDescriptor | global.h:106-115 | record, then bytes, then record is the identity |
| Descriptors.EncodeDecodeDescriptor | global.h:106-115 | bytes, then record, then bytes is the identity: the packed record has no padding and covers all 16 bytes |
| Descriptors.ZeroImageDecodes | idt.c:106-107 | a zero-filled buffer holds the all-zero record and back |
| Descriptors.WrapInt32Spec | idt.c:224 | the 32-bit int result is congruent to the exact value modulo 2^32, and equals it when it fits in an int |
| Descriptors.PromotedShift16Spec | idt.c:231 | `(unsigned long)(m << 16)` has low 32 bits m·2^16, and its high bits are clear exactly when m < 0x8000 |
| Descriptors.PromotedShiftIsIntShift | idt.c:231 | that value is the int shift result taken modulo 2^64 |
| Descriptors.StubAddressSpec | idt.c:123-135 | on X64 the saved or live stub address has bits 0-15, 16-31 and 32-63 equal to offset_low, offset_middle and offset_high; on X86 its low 32 bits are middle:low, and it is below 2^32 exactly when offset_middle < 0x8000; on any other kernel type it is 0 |
| Descriptors.Join64Spec | idt.c:129-131 | high:middle:low split back into its three fields |
| Descriptors.X86IgnoresOffsetHigh | idt.c:125-126 | in 32-bit mode, offset_high takes no part in either address computation |
| Descriptors.X86StubBelow4G | idt.c:126 | with offset_middle < 0x8000, the X86 address is exactly middle·2^16 + low |
| Descriptors.ShowStubAgreement | idt.c:228-233 | show_idt_info's X64 address, which lacks the unsigned cast, agrees with compare_idt's iff offset_middle < 0x8000, and is otherwise 2^32 lower modulo 2^64; the X86 ones always agree |
| Descriptors.X64StubRoundTrip | idt.c:128-131 | the X64 decoding is a bijection between the three offset fields and the 64-bit address |
| Descriptors.GateTypeOfSpec | idt.c:250-265 | Task, Interrupt and Trap gate are printed exactly for the low nibbles 0x5, 0xE and 0xF |
| Descriptors.GateTypeTotal | idt.c:250-265 | the other thirteen nibbles print "Unknown", and only `flag & 0xF` matters |
| Descriptors.DplSpec | idt.c:241-248 | the printed DPL is 0 or 3, and 0 exactly when `flag & 0x60` is 0 |
| Descriptors.SegmentNameSpec | idt.c:181-195 | each of the four names is printed for exactly its selectors; any other selector prints "UNKNOWN" |
| Descriptors.IdtrBase | idt.c:63-83 | the X86 base is below 2^32; any other kernel type but X64 gives 0 |
| Descriptors.IdtrRoundTrip | idt.c:63-96 | from the 10-byte image SIDT stores, get_size_idt and get_addr_idt read back the limit and the base SIDT stored; the X86 base is the low 32 bits |
| Descriptors.RestorePatchBytes | idt.c:166-170 | the patch rewrites offset_low to the saved bits 0-15 and offset_high to the saved bits 16-31 (bytes 10-11 become 0); bytes 2-7 and 12-15 are unchanged |
| Descriptors.RestorePatchIdempotent | idt.c:167-168 | patching twice with the same saved address is patching once |
| Descriptors.RestoreReinstatesIff | idt.c:167-168 | on X64, the patched record decodes to the saved address iff the saved bits 32-63 and the live offset_middle both equal the saved bits 16-31 |
| Descriptors.RestoreMissesKernelAddress | idt.c:167-168 | for the kernel-text address 0xffffff8000112233, the patch does not reinstate the saved address |
| KernelMemory.WriteAt | kernel.c:211 | a served write is read back as written, keeps the base and size, and changes no byte outside the range |
| KernelMemory.WriteAtFrame | kernel.c:203-216 | a write leaves every range that does not overlap it reading as before |
| KernelMemory.WriteAtSameOutside | kernel.c:203-216 | a write changes nothing outside the range it covers |
| KernelMemory.SameOutsideTrans | kernel.c:203-216 | two rounds of writes, each inside [lo, hi), leave everything outside [lo, hi) alone |
| KernelMemory.ReadOutside | kernel.c:174-201 | a range that does not overlap [lo, hi) reads the same in two views that agree outside it |
| KernelMemory.Device.constructor | main.c:181-186 | the opened device holds the given bytes at the given base |
| KernelMemory.Device.ReadKmem | kernel.c:174-201 | readkmem gives KERN_SUCCESS iff the range is served, and then the buffer holds its bytes; KERN_FAILURE iff a task port is used and the range is not served; otherwise (kmem path) the process exits |
| KernelMemory.Device.WriteKmem | kernel.c:203-216 | writekmem aborts iff the range is not served; otherwise memory becomes the old memory with the buffer written at offset |
| KernelProbe.KernelType | kernel.c:66-90 | X86 iff hw.machine is "i386", X64 iff it is "x86_64", -1 iff it is neither |
| KernelProbe.KernelVersion | kernel.c:99-135 | the result is -1 or 10-13; a version is returned only when osrelease starts with its 3-character prefix "1N."; -1 iff no prefix matches |
| Symbols.StrncmpLiteral | kernel.c:269 | against a NUL-free literal shorter than n, `strncmp(s + at, lit, n) == 0` iff s holds the literal then a NUL at `at`, and the comparison reads past the end of s iff what is left of s is a proper prefix of the literal |
| Symbols.StrncmpLinkedit | kernel.c:267-269 | the segname test holds iff the bytes at offset 8 of the command are "__LINKEDIT" then a NUL; it reads past the image iff the image ends inside, and agreeing with, a prefix of "__LINKEDIT"; bytes after the first difference are never read |
| Symbols.TruncatedSegmentLoads | kernel.c:250-310 | a 41-byte image whose only LC_SEGMENT_64 ends after a segname byte that already differs from "__LINKEDIT" loads an empty list |
| Symbols.CommandCursors | kernel.c:258-284 | the first load command is at sizeof(mach_header_64); each command that leads to another fits in the image and the next one starts cmdsize bytes later |
| Symbols.PrefixCompletes | kernel.c:263 | a walk that completes n commands completes every shorter prefix |
| Symbols.StepFrame | kernel.c:265-284 | one command changes the __LINKEDIT fields only when it is LC_SEGMENT_64 named __LINKEDIT, and the symtab fields only when it is LC_SYMTAB; then it sets them from that command |
| Symbols.LinkeditPersists | kernel.c:263-285 | commands that are not __LINKEDIT segments leave linkedit_fileoff and linkedit_size alone |
| Symbols.SymtabPersists | kernel.c:263-285 | commands that are not LC_SYMTAB leave the four table fields alone |
| Symbols.NoLinkeditKeepsZero | kernel.c:243-244 | without a __LINKEDIT segment linkedit_fileoff and linkedit_size stay 0 |
| Symbols.LastLinkeditWins | kernel.c:266-274 | the __LINKEDIT fields are those of the last __LINKEDIT segment command |
| Symbols.LinkeditSetAt | kernel.c:269-273 | right after a __LINKEDIT segment command, the fields are that command's |
| Symbols.SymtabSetAt | kernel.c:276-283 | right after an LC_SYMTAB command, the table fields are that command's |
| Symbols.CommandEffect | kernel.c:265-284 | the state after command k is the state after one step from command k's state |
| Symbols.LastSymtabWins | kernel.c:276-283 | the table fields are those of the last LC_SYMTAB command |
| Symbols.LinkeditCancels | kernel.c:297-301 | `linkedit_buf + (symoff - linkedit_fileoff)` is symoff, and likewise stroff: the __LINKEDIT offset cancels out |
| Symbols.CStringAtSpec | kernel.c:301 | the name read is the bytes up to the first NUL at or after its offset, and is missing only when no NUL follows |
| Symbols.BytesToString | kernel.c:307 | the name has one char per byte, each with that byte's code |
| Symbols.SymbolTableEntries | kernel.c:294-310 | the table holds exactly nsyms entries, entry i read from nlist i (n_value and its n_strx name) |
| Symbols.InsertedAtHeadReverses | kernel.c:291-309 | SLIST_INSERT_HEAD keeps every entry, duplicates included, in reverse table order |
| Symbols.WrongMagicNoSymbols | kernel.c:250-256 | an image whose magic is not MH_MAGIC_64 yields no symbols |
| Symbols.RetrieveKernelSymbols | kernel.c:218-311 | the method's result is KernelSymbols of the image |
| Symbols.WalkLoadCommands | kernel.c:263-285 | the loop over ncmds commands ends in the state the walk function gives |
| Symbols.NextCommand | kernel.c:265-284 | one pass of the loop is one step of the walk |
| Symbols.CommandsStep | kernel.c:265-284 | a command that fits takes the walk one step on |
| Symbols.ApplyCommand | kernel.c:266-284 | the body of the loop for one command is Step |
| Symbols.ReadSymbolTable | kernel.c:291-310 | the symbol loop builds the head-inserted list of the symbol table |
| Symbols.SymbolTableStep | kernel.c:294-310 | a readable entry extends the table by itself |
| Symbols.InsertedAtHeadSnoc | kernel.c:308 | inserting one more entry puts it at the head |
| Symbols.PrefixNone | kernel.c:263-285 | a walk that fails at command k fails for every longer one |
| Symbols.SymbolTableNone | kernel.c:294-310 | a table that fails at entry k fails for every longer one |
| Symbols.FirstMatch | kernel.c:318-327 | the index found is at most the length of the list |
| Symbols.FirstMatchSpec | kernel.c:318-327 | SLIST_FOREACH stops at an element carrying the address, and no element before it carries it |
| Symbols.FirstMatchUnique | kernel.c:318-327 | the first match is the only index with those two properties |
| Symbols.LookupFound | kernel.c:318-332 | a name is found iff some element carries the address |
| Symbols.ResolveSymbol | kernel.c:313-333 | resolve_symbol leaves the name of the first element whose address is `stub - slide`, else "can't resolve" |
| Symbols.UnslideSlid | kernel.c:321 | a slid address minus the slide is the address, in 64-bit unsigned arithmetic |
| Symbols.ResolveExample | kernel.c:313-333 | a one-entry list resolves its slid address to its name, and any other address to "can't resolve" |
| Symbols.LookupFindsLastTableEntry | kernel.c:294-327 | because of head insertion, resolve_symbol finds the last table entry with the address |
| Idt.ReadDescriptor | kernel.c:174-201 | one readkmem into the reused buffer: the new buffer, the stale one (task port failure), or the exit |
| Idt.ReadSlots | idt.c:352-356 | a walk reads at most n records, and exactly n unless it exits |
| Idt.ReadSlotsStep | idt.c:352-354 | a walk that has not exited reads slot x into the buffer left by slot x - 1 |
| Idt.ReadSlotsExited | kernel.c:189-198 | once the process exits, later slots add nothing |
| Idt.ReadSlot | idt.c:354 | the method reading slot x is one step of the walk |
| Idt.SlotServed | idt.c:354 | in a table the device serves, slot x is at idt_addr + 16x, with no 64-bit wrap, and can be read |
| Idt.ReadSlotsServedStep | idt.c:352-354 | over a served table, the next record is the slot's own bytes |
| Idt.ReadSlotsServed | idt.c:352-356 | over a served table the walk never exits |
| Idt.ReadSlotsRecord | idt.c:352-356 | over a served table, record x is the 16 bytes at idt_addr + 16x |
| Idt.NonZeroIndices | idt.c:298 | the indices listed are all below n |
| Idt.NonZeroIndicesPrefix | idt.c:280-298 | a later stub address does not change which earlier indices are listed |
| Idt.AllRowsSnoc | idt.c:280-336 | one more record adds its row exactly when its stub address is not 0 |
| Idt.NonZeroIndicesStep | idt.c:298 | index n - 1 is appended exactly when its stub address is not 0 |
| Idt.NonZeroSound | idt.c:298 | every listed index has a non-zero stub address |
| Idt.NonZeroAscending | idt.c:280 | the listed indices ascend strictly |
| Idt.NonZeroComplete | idt.c:280-298 | every index with a non-zero stub address is listed |
| Idt.AllRowsIndexed | idt.c:298-336 | the k-th -A row is the row of the k-th listed index |
| Idt.AllRowsSound | idt.c:298-336 | each -A row is made from its own record, whose stub address is not 0 |
| Idt.AllRowsAscending | idt.c:280-336 | the -A rows come in strictly ascending interrupt order |
| Idt.AllRowsComplete | idt.c:280-336 | no record with a non-zero stub address is left without its row |
| Idt.ShowIdtInfo | idt.c:197-339 | the method prints the rows and takes the exit ShowReport gives: the single row, then the -A rows |
| Idt.ShowAllDescriptors | idt.c:278-338 | the -A loop prints AllRows of the records the walk read |
| Idt.ShowSlot | idt.c:281-336 | one -A pass reads slot x and extends the rows as AllRows does |
| Idt.AppendRow | idt.c:298-336 | one record adds its row exactly as AllRows says |
| Idt.NoSingleRowWithoutInterrupt | idt.c:222-278 | with interrupt 0 there is no single row: without -A nothing is printed, and with -A over a served table exactly the -A rows are |
| Idt.SingleRowFirst | idt.c:222-277 | with interrupt != 0 and its slot readable, the first row is that interrupt's, even when its stub is 0 |
| Idt.UnreadableSingleSlotExits | idt.c:222-224 | on the kmem path, an unreadable single slot exits before any row |
| Idt.CreateIdtArchive | idt.c:341-359 | the method writes the archive and exits as ArchiveOf says |
| Idt.CreateArchiveIsRaw | idt.c:352-356 | over a served table the archive holds exactly idt_entries records, each the raw 16 bytes of its slot, zero stubs included |
| Idt.ArchiveListing | idt.c:371-375 | read_idt_archive exits iff the file does not open |
| Idt.ReadEntry | idt.c:377-393 | one pass of the loop: fread into the buffer, then the entry decoded from it |
| Idt.ReadIdtArchive | idt.c:362-396 | the method prints the entries and takes the exit ArchiveListing gives |
| Idt.CreateThenRead | idt.c:352-393 | reading back a fresh archive of a served table lists, for each index, the address decoded from that slot |
| Idt.ShortArchiveRepeatsLast | idt.c:379 | past the end of a non-empty archive, every index reads the last record again |
| IdtCompare.ArchiveOpenAsWritten | idt.c:113-117 | as written, an archive that opens makes compare_idt exit |
| IdtCompare.AsWrittenNeverCompares | idt.c:113-117 | as written, no archive is ever compared |
| IdtCompare.ArchiveOpen | idt.c:113-117 | with the intended test, an archive is compared iff it opens, and the missing case exits |
| IdtCompare.ComparePassStep | idt.c:119-174 | a walk that has not exited goes on with one more slot |
| IdtCompare.ComparePassExited | kernel.c:189-198 | once compare_idt exits, later slots change nothing |
| IdtCompare.CompareIdt | idt.c:100-179 | the method's messages, exit and new kernel memory are CompareOutcome of the old memory |
| IdtCompare.CompareSlots | idt.c:119-174 | the 256-slot loop leaves what ComparePass gives |
| IdtCompare.CompareSlot | idt.c:120-173 | one pass of the loop is one CompareStep, the fread buffer included |
| IdtCompare.ReportStepKeepsMemory | idt.c:154-162 | without -R a slot never writes memory |
| IdtCompare.ReportModeKeepsMemory | idt.c:119-174 | without -R the walk leaves memory as it was |
| IdtCompare.ReportModeOutcomeKeepsMemory | idt.c:100-179 | without -R compare_idt leaves memory as it was |
| IdtCompare.ReportStep | idt.c:154-162 | without -R a readable slot adds its (x, saved, live) line exactly when the two addresses differ |
| IdtCompare.TableSlots | idt.c:138 | in a served table, slot x is idt_addr + 16x and can be read |
| IdtCompare.MismatchesSound | idt.c:154-161 | every reported line names an index whose two addresses differ, with both values |
| IdtCompare.MismatchesComplete | idt.c:154-161 | every index whose two addresses differ is reported |
| IdtCompare.MismatchesEmpty | idt.c:154-161 | nothing is reported iff all the addresses agree |
| IdtCompare.ReportModePass | idt.c:119-162 | without -R over readable slots, the walk leaves memory alone and reports exactly the mismatches |
| IdtCompare.CompareReports | idt.c:119-178 | without -R over a served 256-slot table, compare_idt reports the mismatches in index order, or "[OK] ..." alone when there is none |
| IdtCompare.CompareAllSameIff | idt.c:175-178 | "[OK] ..." alone is printed iff every slot decodes to its saved address |
| IdtCompare.PatchedFields | idt.c:166-170 | the written-back record is the live one with offset_high and offset_low patched and nothing else changed |
| IdtCompare.PatchedBytes | idt.c:167-170 | the written-back bytes differ from the live ones only in bytes 0-1 and 8-11 |
| IdtCompare.FixedIdempotent | idt.c:154-171 | fixing a fixed slot again with the same saved address changes nothing |
| IdtCompare.RestoreStep | idt.c:164-171 | with -R a readable slot is announced and rewritten exactly when its address differs, and no byte outside its 16 is written |
| IdtCompare.RestoresMirrorMismatches | idt.c:154-172 | restore mode announces the same indices, in the same order, as report mode lists |
| IdtCompare.TableSlot | idt.c:138 | slot x of a served table is idt_addr + 16x, and the slots before it are served too |
| IdtCompare.RestoreModePass | idt.c:119-174 | with -R over a served table, the walk announces each differing index, writes nothing outside the slots walked, and leaves each slot fixed |
| IdtCompare.CompareRestores | idt.c:119-178 | with -R over a served 256-slot table, compare_idt announces exactly the differing indices ("[OK] ..." when none) and writes nothing outside the table |
| IdtCompare.SlotsDetermine | idt.c:170 | two views agreeing outside the table and on each of its slots are equal |
| IdtCompare.RestoreTwiceIsOnce | idt.c:164-171 | a second restore pass over the result of the first writes nothing new |
| IdtCompare.FreshArchiveStubs | idt.c:119-122 | against a fresh 255-record archive, slot x < 255 reads its own saved address, and slot 255 reads slot 254's again |
| IdtCompare.CompareFreshArchive | idt.c:119-161 | comparing a fresh archive against the same served table reports slot 255 alone, against slot 254's address, whenever the two differ |
| Driver.ApplyOpt | main.c:112-154 | one option lets the loop go on iff it is not -h and not a path too long |
| Driver.ParseOptions | main.c:110-155 | the loop ends with the configuration, or with -h or a path too long, as the fold of the options gives |
| Driver.ParseSnoc | main.c:110-155 | one more option is one more pass of the switch, unless the loop already stopped |
| Driver.ParseProceedsIff | main.c:114-150 | the loop completes iff no option is -h or a path too long |
| Driver.ParseStopsAtFirst | main.c:110-155 | the first stopping option decides: usage for -h, return -1 for a long path |
| Driver.OtherIgnored | main.c:112-154 | options the switch has no case for change nothing |
| Driver.LastOutWins | main.c:132-139 | out_filename is the path of the last -o, or the initial one |
| Driver.LastInWins | main.c:143-150 | in_filename is the path of the last -i, or the initial one |
| Driver.LastInterruptWins | main.c:117-119 | interrupt is the value of the last -a, or the initial one |
| Driver.ParseFlags | main.c:110-155 | each flag is set iff it was set before or its option occurs, and no other field changes |
| Driver.EntryCount | main.c:172 | `idt_size / 16`: the largest n with 16n <= limit |
| Driver.FullTableEntries | main.c:172 | a full 256-slot table has limit 4095 and so gives 255 entries, one fewer than compare_idt walks |
| Driver.Probed | main.c:170-175 | idt_entries is EntryCount of idt_size |
| Driver.WithSymbols | main.c:188-191 | without -s the configuration is unchanged; the symbol load changes the symbol list and nothing else, only with -s and a kernel image |
| Driver.PlanRuns | main.c:193-212 | show runs iff interrupt >= 0 or -A; create iff -c; read iff -r; compare iff -C or -R |
| Driver.PlanCompares | main.c:205-212 | compare_idt runs once for -C and once more for -R |
| Driver.PlanInOrder | main.c:193-212 | the operations always run in the order show, create, read, compare |
| Driver.Perform | main.c:193-212 | after an exit nothing changes; otherwise one event of that operation is added, and only compare_idt touches memory |
| Driver.PerformStage | main.c:193-212 | a flag-guarded call adds its operation to those already run, or none |
| Driver.PerformLog | main.c:193-213 | the output is one event per operation run, in plan order; all run unless one exits, and that one is the last to print |
| Driver.ReportModeRunKeepsMemory | main.c:205-208 | without -R no operation writes kernel memory |
| Driver.PerformWritesOnlyOutput | idt.c:347-357 | one call writes a file only when it is create_idt_archive and fopen succeeds, and then only the output file |
| Driver.RunWritesOnlyOutput | main.c:193-212 | over any run, only the output file may change, and only with create and a writable output |
| Driver.CompareTwiceRestoresOnce | main.c:205-212 | with -C -R over a served table, the second restore leaves memory as the first left it |
| Driver.ConfiguredKeepsPlan | main.c:158-191 | the probes and the symbol load change no option, so the plan is the one the options give |
| Driver.MainExits | main.c:98-214 | exit(1) iff argc < 2 or -h; return -1 iff a path is too long, the kernel is not x86_64 or /dev/kmem does not open; undefined iff the symbol load, with names read at load time, reads outside the image; otherwise exit(-1) or return 0, the latter after one event per planned operation in order |
| Driver.MainWrites | main.c:98-214 | kernel memory changes only when main gets past the gate with -R; files change only with -c and a writable output; files other than the output are unchanged |
| Driver.ShowsByDefault | main.c:193-196 | without -a, show_idt_info always runs, and first |
| Driver.RunStage | main.c:193-212 | one flag-guarded call on the device takes the state PerformAll gives one operation further |
| Driver.DispatchTables | main.c:193-204 | the show, create and read calls leave the state PerformAll gives for their stages |
| Driver.Dispatch | main.c:193-212 | the five calls leave the state PerformAll gives for the plan |
| Driver.Configure | main.c:102-191 | the start of main yields Configured, or the early exit EarlyExit gives |
| Driver.Run | main.c:98-214 | main on the device ends with the exit, output, files and memory MainOutcome gives |

## Left out

- SIDT, sysctl and the kas_info system call are not run. The 10-byte IDTR image, hw.machine, kern.osrelease and the slide are inputs (`Driver.Host`).
- open, fstat and mmap of /mach_kernel are not modelled. The image is an `Option` of bytes; None means one of the three failed, and the list then stays empty.
- fopen, fread, fwrite and fclose are not modelled. A file is a map entry holding its records, and fopen for writing succeeding is a Host flag. An archive whose length is not a multiple of 16 is not modelled.
- `mach_vm_read_overwrite` through a task port is modelled as a read that may fail. main never sets kernel_port, so that path is never taken from Driver.
- lseek, read and write on /dev/kmem are modelled as reads and writes of the device's array. A failure is an access outside the array.
- Output formatting is not modelled: header(), the banner, the column headers, printf widths and the `[INFO]` lines. usage() is modelled as its exit(1) only.
- getopt and atoi are not modelled. The loop takes the options getopt returns, each -a carrying atoi's value.
- strncpy into the 1024-byte paths is the identity here, since longer paths are refused before it.
- Symbols.ResolveSymbol: the name is returned whole. In the source, resolve_symbol copies it with `strncpy(name, el->name, name_size)` (kernel.c:323) into the 256-byte `name` of show_idt_info (idt.c:206). A name of 256 bytes or more is therefore cut to 256 bytes there and left without a terminator. The model does not capture that. malloc failure in get_kernel_type, get_kernel_version and the symbol loop is not modelled. So is the lifetime of the names, which point into the mapping.
- Symbols.KernelSymbols: the source reads the Mach-O header, the load commands and the nlist entries without bounds checks. Where one of those reads would fall outside the image, the model answers Malformed, and main then ends Undefined (`Driver.Exit`). Only the bytes the source reads count: a segment command needs its segname only up to the first byte that differs from "__LINKEDIT" and its NUL, and needs fileoff and filesize only when the name matches.
- Symbols.KernelSymbols: the load reads every entry's name, and one with no NUL before the end of the image makes the whole load Malformed. The source never reads names while loading (kernel.c:299-307). It keeps only the pointer, and reads the name in resolve_symbol's strncpy, only for the entry that matches (kernel.c:321-323). So the model ends Undefined on an image the source loads, and on which a `-s` run whose stubs never match that entry returns 0.
- KernelProbe.KernelVersion: main never calls get_kernel_version, so it is modelled on its own.
- IdtCompare.CompareOutcome: the driver uses the corrected fopen test. The as-written test is kept apart, under Findings.
- Descriptors.ShowStubAddress: show_idt_info's sign-extended `offset_middle << 16` is modelled as written, not corrected. It only affects what is printed, and ShowStubAgreement states what it changes.
- Concurrency with the running kernel is not modelled. Memory changes only through writekmem.

## Findings

| source | as written | input that shows it | evidently intended | confidence | as-written member | corrected member |
|---|---|---|---|---|---|---|
| idt.c:113-117 | `if ((file_idt = fopen(cfg->in_filename, "r")) != 0)` exits with "Error while opening file" | any -C or -R run: an archive that exists makes compare_idt exit(-1) before comparing, and a missing one goes on to fread from a NULL stream | `== NULL`, as in read_idt_archive at idt.c:371, so that a missing archive exits and an existing one is compared | not executed | IdtCompare.AsWrittenNeverCompares | IdtCompare.ArchiveOpen |
