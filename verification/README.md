# DragonStub verification

Proofs about the boot stub DragonStub and the gnu-efi library it carries. Each Dafny module models one
unit of the program: the same branches, constants and error returns, in 64-bit arithmetic where the unit
computes in machine words. Methods model the functions of the program; they are proved against
specification functions, and lemmas state what those are good for.

| module | unit |
|---|---|
| Crc32, CrcDivision, CrcBurst, CrcHeader | the CRC-32 of EFI table headers |
| Glob, GlobLaws | the wildcard matcher MetaMatch |
| VirtMap | virtual addresses for the firmware's runtime regions |
| Firmware, BootExit, BootKernel | fetching the memory map and leaving boot services |
| Pages, MemoryOps, ElfLoader | aligned pages, block operations, loading the kernel image |
| CommandLine, CommandLineLaws, CommandLineShapes, LoadOptions, AsciiWords, KernelOptions | from UTF-16 load options to option flags |
| Numbers, PrintBuffer, PrintFormat, PrintLaws, PrintWidths, PrintInks | number printing and parsing, the print engine |
| WordScan | memchr and \_\_strchrnul by words |
| DevicePath, DevicePathUnpack, DevicePathShapes | device-path lists |
| ProtocolInstall | installing several protocol interfaces at once |
| Relocate, RelocateLaws | the self-relocators for riscv64 and x86\_64 |
| Word64, Wrappers | machine words and alignment; Option |

Where the code and its comments or intentions part, the model follows the code:

- `efi_allocate_pages_aligned` keeps too little memory for alignments of 2^44 and more, and its limit wraps
  when `max` is below the alignment (Pages.EfiAllocatePagesAligned, Pages.LimitRespected).
- The memory map's size is recorded in 32 bits (BootExit.SizeRecorded). The buffer for the runtime map is sized
  by an earlier memory map (BootKernel.RoomExactly).
- `p_align & !EFI_PAGE_SIZE` is always 0, so segments are not checked for alignment; the extended program
  header count is cut to 16 bits (ElfLoader.TableFound).
- The entry address is computed from two minima that may belong to different segments
  (ElfLoader.EntryExactly, ElfLoader.EntryMisplaced).
- `isspace` also holds of 0xA0, so a byte 0xA0 inside a UTF-8 character separates words
  (AsciiWords.SpacesAgree, AsciiWords.LetterIsSplit). Hyphens and underscores are not equivalent for
  `next_arg`, whatever its comment says: names read back as they are printed (CommandLineLaws.PrintThenRead).
- The width `%p` sets is the value of a comparison, 0 (PrintLaws.PointerUnpadded). `%lu` prints values from 2^63 on as negative
  (PrintLaws.LongUnsigned). `%N`, `%H` and `%E` do not end a directive when their attribute
  is 0 (PrintLaws.NormalAttribute). The attribute of `%e`, `%h` and `%n` is for one item only unless the one
  before is 0, or two of them stand in one directive (PrintInks.OneItemOnly, PrintInks.TwoForOneItem). `-` does
  not put anything on the left unless there is a field width behind a dot (PrintWidths.WidthOfString).
- The cap of the walk over a device path is octal 01000, so an instance may have 513 nodes
  (DevicePath.InstancesAreSplit). Padded node lengths can wrap (DevicePathUnpack.UnpackValid).
  AppendDevicePathInstance does not ask for enough memory behind a Src whose end node is longer than four
  bytes, as that of an unpacked path can be (DevicePath.AppendFits, DevicePathUnpack.UnpackedSrc).
- An x86\_64 image must not be relocated twice (Relocate.AddingTwice).

The firmware is modelled by what its callers may rely on (UEFI Specification, sections 7.2 to 7.4): memory
maps change before any call, allocations fail at any time, and granted pages and new handles are any that
are free.

## Model
| member | source | states |
|---|---|---|
| Crc32.CRCTable | lib/crc.c:22-66 | each of the 256 entries is its index after eight steps of the shift register with polynomial 0xEDB88320 |
| Crc32.TableStepIsEightBitSteps | lib/crc.c:212 | one table step equals feeding the byte's eight bits into the register, least significant bit first |
| Crc32.WideStep | lib/crc.c:207-212 | the 64-bit variable Crc holds the 32-bit register after every step, so it stays below 2^32 |
| Crc32.CalculateCrc | lib/crc.c:201-218 | for every byte string the table loop returns the bit-serial CRC-32 (RFC 1952, section 8) |
| CrcDivision.FeedbackIsGenerator | lib/crc.c:22-66 | the feedback constant holds the coefficients of the CRC-32 generator polynomial |
| CrcDivision.CrcIsRemainder | lib/crc.c:201-218 | the CRC is the complemented remainder of schoolbook long division of the message by the generator, for every message |
| CrcBurst.FeedInjective | lib/crc.c:212 | no message byte merges two different registers |
| CrcBurst.BurstDetected | lib/crc.c:201-218 | messages of equal length that differ only inside 32 consecutive bits have different CRCs |
| CrcHeader.SetCrcAltSize | lib/crc.c:93-116 | exactly the CRC32 field changes, to the CRC of the first Size bytes with that field cleared |
| CrcHeader.SetCrc | lib/crc.c:70-91 | the same, with the header's own HeaderSize |
| CrcHeader.CheckCrcAltSize | lib/crc.c:146-198 | accepts exactly sizes in range whose stored CRC is right, and leaves every byte as it was |
| CrcHeader.CheckCrc | lib/crc.c:119-141 | the same, with the header's own HeaderSize |
| CrcHeader.AcceptedExactly | lib/crc.c:146-198 | accepted are exactly the headers whose size is not 0 and within the limit and whose bytes 16 to 19 hold, little-endian, the CRC of the first Size bytes with these four cleared |
| CrcHeader.HeaderSizeIs | lib/crc.c:139-141 | HeaderSize is the little-endian word in bytes 12 to 15 |
| CrcHeader.SetThenCheck | lib/crc.c:93-198 | what SetCrcAltSize stores is accepted for the same Size exactly if Size is non-zero and within MaxSize |
| CrcHeader.BurstRejected | lib/crc.c:146-198 | two headers with one stored CRC that differ only in a burst of 32 covered bits are not both accepted |
| CrcHeader.FourBytesRejected | lib/crc.c:146-198 | nor are two that differ only inside four consecutive bytes |
| CrcHeader.RestoreCrc | lib/crc.c:183-189 | clearing the field and writing the saved value back restores the header |
| Glob.MetaMatch | lib/str.c:325-409 | for every pattern with closed sets: terminates, and returns TRUE exactly if the string is a concatenation of words of the pattern's items |
| Glob.MatchSet | lib/str.c:360-394 | the set scan finds a character exactly if the set lists it or one of its ranges covers it, and then stops behind the closing bracket |
| Glob.SetIsHits | lib/str.c:367-388 | membership in a set, as listed characters and `prev-next` ranges, is what some position of the scan accepts |
| Glob.MatchesUnfold | lib/str.c:333-358 | the language of a pattern through its first item: any sequence, any character, or the character itself |
| Glob.MatchesUnfoldSet | lib/str.c:360-397 | the same for a pattern that starts with a set |
| GlobLaws.FirstCharacter | lib/str.c:333-358 | the meaning of a pattern by its first character: `*`, `?`, or any other but `[` |
| GlobLaws.SetInPattern | lib/str.c:360-397 | `[`, a body and `]` match one character that stands in the body, a dash only behind a dash, or lies between the neighbours of a dash |
| VirtMap.GetVirtmap | apps/stub.c:210-264 | descriptors without bit 63 of the attributes stay as they are, those with it change in their virtual address only, and are copied in order, each behind as many as have the bit before it, as far as the second map has room; no other descriptor is copied, and after any number of descriptors no more were copied than read |
| VirtMap.BitDecides | apps/stub.c:224-262 | the same, of the map the pass leaves: which descriptors it changes and where each copy stands |
| VirtMap.CopiedHaveBit | apps/stub.c:224-262 | as many descriptors are copied as have bit 63, and all of them have it |
| VirtMap.Place | apps/stub.c:225-258 | the arithmetic for one region in 64-bit words, as one sum |
| VirtMap.RuntimeMapAt | apps/stub.c:219-263 | the copied entry for each runtime descriptor is the one the whole map assigns to it |
| VirtMap.BaseBounds | apps/stub.c:214-258 | the next free virtual address never decreases and stays below the base plus all sizes plus a fixed waste per region |
| VirtMap.OnePlacement | apps/stub.c:235-257 | without wrap-around a region starts in its slot at its physical offset, and the next free address is its end |
| VirtMap.RegionPlaced | apps/stub.c:235-257 | every runtime range starts at or above 512 MiB, on the first 64 KiB or, for a section-aligned region of a section or more, 2 MiB boundary from the next free address on, at its physical offset in a 64 KiB page, and ends within the bound |
| VirtMap.RegionsApart | apps/stub.c:235-257 | ranges increase in map order and no two share a 64 KiB page |
| VirtMap.RegionFollows | apps/stub.c:235-257 | there are no gaps but for rounding: a range starts at the first such boundary behind the end of the range before it, the first one behind 512 MiB |
| VirtMap.FlatRegion | apps/stub.c:228-231 | with a flat mapping or under efi_novamap every runtime region is moved by the one offset, modulo 2^64 |
| VirtMap.PassIsIdempotent | apps/stub.c:214-263 | running the pass on its own output gives the same map, runtime map and next address, for every map and every setting |
| VirtMap.NovamapIsIdentity | apps/stub.c:228-231 | under efi_novamap nothing is copied and virtual equals physical |
| Firmware.BootServices.GetMemoryMap | apps/mem.c:27-28 | what the callers may rely on: the current map and its key, or the size it needs; the map may have changed before the call |
| Firmware.BootServices.ExitBootServices | apps/helper.c:382 | succeeds only with the key of the current map, and refuses a stale one as EFI_INVALID_PARAMETER |
| BootExit.DeviceTree.UpdateFdt | apps/fdt.c:136-165 | on success /chosen holds the address of the system table and all ones in the four properties of the memory map, under the names the kernel reads; no other property changes; it fails only with an error of fdt_setprop, and lack of space is told apart from others |
| BootExit.DeviceTree.UpdateMemmap | apps/fdt.c:30-69 | succeeds exactly where the placeholders exist with the right lengths, and then the tree records the map's address, size, descriptor size and version, cut to the property's width; no other property changes |
| BootExit.SizeRecorded | apps/fdt.c:47 | the recorded size is the size of the map exactly if that is below 2^32 |
| BootExit.EfiGetMemoryMap | apps/mem.c:20-66 | with or without installing it, a map is returned exactly on success, with its key, in a buffer with the slack slots; otherwise the firmware refused a call, and the buffer is freed again |
| BootExit.Fetch | apps/helper.c:399-402 | the refetch into the same buffer delivers the current map, and lacks room only if the map grew by more than the slack |
| BootExit.ExitBootFunc | apps/fdt.c:196-211 | processing a fetched map assigns its virtual addresses, collects the runtime map and records the map in the tree |
| BootExit.EfiExitBootServices | apps/helper.c:357-417 | in every run at most two exit attempts, each with the key of the map just processed, and after the first only GetMemoryMap, processing and exit; a second attempt exactly after a refused key, unless the map cannot be fetched; on success map, runtime map and the four properties describe the firmware's final map, and no other property changes; with the placeholders set no processing fails and every failure is the firmware's, without them there is no attempt |
| BootExit.ProtocolStep | apps/helper.c:357-417 | which calls keep the rule, given the run so far |
| BootExit.ProtocolMeans | apps/helper.c:357-417 | in event terms: never three attempts, each right behind the processing of the map with its key and that behind its delivery, and nothing but GetMemoryMap, processing and exit behind the first |
| BootExit.FetchedHolds | apps/mem.c:20-66 | a fetched map is the firmware's map of its key, in a buffer of eight slots more than the probe found descriptors |
| BootExit.SlotsOf | apps/mem.c:33 | the computed size is a whole number of slots: those of the probe and the slack |
| BootKernel.EfiAllocVirtmap | apps/stub.c:183-201 | room for as many descriptors as the memory map has at that moment |
| BootKernel.RoomExactly | apps/stub.c:189-200 | that room is enough for the runtime map of a later memory map exactly if nothing is copied or the later map has no more descriptors with bit 63 than the first has entries |
| BootKernel.PrepareAndExit | apps/fdt.c:223-299 | buffer, placeholders and exit in one: on success the kernel finds the system table and the firmware's final map through /chosen, and the runtime map is complete exactly if the buffer had room; no other property changes; it fails only where the firmware or fdt_setprop does |
| Pages.EfiAllocatePagesAligned | apps/alignedmem.c:22-58 | makes one request, for the pages of the size and all but one of an alignment block, below the highest boundary that max reaches; whatever run the firmware grants, exactly an aligned run of the rounded size inside it stays allocated, if and only if the alignment is at most 2^43; otherwise nothing changes |
| Pages.Trim | apps/alignedmem.c:45-56 | head and tail given back and the kept run partition the grant |
| Pages.LimitRespected | apps/alignedmem.c:30-35 | the limit offered to the firmware respects max exactly if max is the top of memory or an aligned block ends at or below it; otherwise it wraps to the top |
| Pages.LimitExactly | apps/alignedmem.c:30-35 | the limit is the last byte below the highest multiple of the alignment that max reaches, or the top of memory without one |
| Pages.PagesExactly | apps/alignedmem.c:36 | a size comes to the pages it covers, sizes without a multiple of 4096 above them in 64 bits to none |
| Pages.SlackExactly | apps/alignedmem.c:37 | the slack is align/4096 - 1 for alignments up to 2^43, and -1 for larger ones, which do not fit an int |
| Pages.TooFewKept | apps/alignedmem.c:37-41 | with that slack of -1 the grant is a page short for every size but 0 |
| Pages.GrantPages | apps/alignedmem.c:45-51 | where the aligned address lies in the granted run, in pages |
| Pages.EfiFree | apps/mem.c:151-160 | gives back exactly the pages of an allocation, whatever was allocated or freed since |
| Pages.KeptComesBack | apps/mem.c:151-160 | freeing at once what the allocator kept restores the firmware's free pages |
| Pages.EfiAllocatePages | apps/mem.c:83-104 | makes one request and keeps exactly the pages that efi_free will give back, below max unless no page ends there |
| Pages.SameCount | apps/mem.c:97 | allocating and freeing count the same pages for every size, also where both roundings wrap |
| MemoryOps.Memset | lib/init.c:181-189 | fills the block, and nothing else |
| MemoryOps.Memcpy | lib/init.c:191-200 | copies upwards: right unless the destination starts inside the source |
| MemoryOps.Memmove | lib/init.c:210-231 | copies whatever the overlap, and changes nothing else |
| ElfLoader.ScanSegments | apps/elf.c:274-292 | lowest physical and virtual start and highest physical end of the PT_LOAD segments, in 64-bit arithmetic |
| ElfLoader.Extremes | apps/elf.c:274-292 | the three extremes are attained by PT_LOAD segments and bound all of them |
| ElfLoader.EfiAllocateKernelMemory | apps/elf.c:264-323 | refuses exactly unaligned minima; on success a zeroed, 2 MiB aligned block of the rounded span, taken from free pages |
| ElfLoader.CopySegments | apps/elf.c:350-393 | succeeds exactly if every PT_LOAD segment passes its checks, and then the block holds the image |
| ElfLoader.LoadProgram | apps/elf.c:325-404 | refuses exactly misaligned programs and those with a PT_LOAD segment that ends behind the payload or is longer in the file than in memory, unless the firmware refuses memory; on success the block has the span of the segments rounded up to 2 MiB, every byte of it is the payload byte of the last PT_LOAD whose file range covers it, else 0, and no other memory changed; on failure no page is lost |
| ElfLoader.BlockFits | apps/elf.c:294-299 | the rounded size of the block can only wrap around for segments from address 0 on |
| ElfLoader.ImageByteIs | apps/elf.c:352-393 | what the image holds at an address: the byte of the last segment of type 1 whose file range covers it, or 0 without one |
| ElfLoader.OneSegment | apps/elf.c:387-388 | copying one more segment turns the image of those before into the image of all |
| ElfLoader.EntryExactly | apps/elf.c:442-443 | kernel_entry is where the byte linked at e_entry was put exactly if the segment that holds it is as far from its physical addresses as the lowest virtual address of all segments is from the lowest physical address of all |
| ElfLoader.EntryMisplaced | apps/elf.c:442-443 | it is not for two segments that are linked and loaded in different orders, although the first has the lowest virtual address and holds the entry |
| ElfLoader.EntryByte | apps/elf.c:442-443 | with one distance for all segments, the byte at kernel_entry is the byte of the file linked at e_entry |
| ElfLoader.UniformMinima | apps/elf.c:288-289 | one distance for all segments is the distance of the two minima |
| ElfLoader.TableFound | apps/elf.c:110-160 | an accepted program header table starts at e_phoff, lies in the payload exactly if its end does not wrap, and has the announced number of entries exactly if an extended count fits 16 bits |
| ElfLoader.TableAccepted | apps/elf.c:110-160 | every header with entries of 56 bytes and a count other than 0 whose table, and with an extended count whose first section header, lies in the payload is accepted with that count at e_phoff |
| ElfLoader.TableRefused | apps/elf.c:114-150 | entries of another size, no entries, a count that is 0 in 16 bits, and a table or first section header that ends behind the payload without wrapping are refused |
| CommandLine.NextArg | apps/lib/cmdline.c:195-242 | on any non-empty string: the returned C strings are the first word's parameter and value, the cursor strictly advances inside the buffer, and what is still to be read is untouched |
| CommandLine.FirstWord | apps/lib/cmdline.c:197-238 | where the first word ends and what is written into it |
| CommandLine.ScanWord | apps/lib/cmdline.c:206-215 | the loop stops at the first space outside quotes and remembers the first `=` that is not in front |
| CommandLine.Terminate | apps/lib/cmdline.c:217-238 | exactly the `=`, a closing quote and the character behind the word become NULs |
| CommandLine.SkipSpacesAt | apps/lib/string.c:4-9 | the first position that is no space |
| CommandLineLaws.CutKeepsWords | apps/lib/cmdline.c:206-215 | the words of a line cut at a space outside quotes are the first words of the whole line |
| CommandLineLaws.PrintThenRead | apps/lib/cmdline.c:195-242 | reading a line printed from any list of parameters and values without quotes returns exactly that list |
| CommandLineLaws.InQuoteIsParity | apps/lib/cmdline.c:213-214 | being inside quotes is having read an odd number of them |
| CommandLineShapes.FirstWordEnds | apps/lib/cmdline.c:206-215 | the first word ends at the first space behind an even number of quote characters, or with the line |
| CommandLineShapes.WordStandsFor | apps/lib/cmdline.c:197-238 | parameter and value of a word by its characters: the first `=` that is not in front divides them, and a quote in front of the word or of the value goes together with one at the end |
| CommandLineShapes.CutsExactly | apps/helper.c:161-162 | a line can be cut exactly at an ASCII space behind an even number of quote characters |
| CommandLineShapes.ElementsJoin | apps/helper.c:225-242 | the elements of a comma-separated list contain no comma, and joined with commas make up the list but for a final one |
| LoadOptions.EfiConvertCmdline | apps/helper.c:135-201 | the count is the UTF-8 length of the accepted UTF-16 text plus one, or, if that exceeds the limit, ends at the last space outside quotes before it |
| LoadOptions.FullIsText | apps/helper.c:152-191 | the accepted text is the UTF-8 of all units before the first NUL or newline, lone surrogates as U+FFFD; without such a unit, a high surrogate at the very end is left out |
| LoadOptions.StopsAtLineEnd | apps/helper.c:157-158 | what follows the first NUL or newline does not matter, and nothing before it is lost |
| LoadOptions.NoLineEnds | apps/helper.c:157-158 | the accepted text contains neither NUL nor newline |
| LoadOptions.Utf8Reads | apps/helper.c:168-176 | the UTF-8 of every code point reads back, whatever follows |
| LoadOptions.KeptWords | apps/helper.c:151-199 | kept text has even quote parity when cut, and its words are the first words of the full line |
| LoadOptions.HeadOther | apps/helper.c:173-191 | bytes counted for a unit outside ASCII: 2 or 3, 4 for a surrogate pair, 3 (U+FFFD) for a lone surrogate, 0 for a high surrogate at the very end |
| AsciiWords.SpacesAgree | apps/helper.c:161-162 | for every command line as UTF-8, next_arg reads the words that ASCII spaces outside quotes divide exactly if every byte 0xA0 of it stands inside quotes |
| AsciiWords.LetterIsSplit | apps/lib/cmdline.c:207 | for the letter U+00E0 it does not: the word ends between its two bytes |
| AsciiWords.WordEnds | apps/lib/cmdline.c:206-215 | next_arg's word ends no later than one that ends at an ASCII space, and elsewhere only at a 0xA0 outside quotes |
| KernelOptions.ParseOptionStr | apps/helper.c:225-242 | true exactly if the option is an element of the comma-separated list |
| KernelOptions.FlagsDecided | apps/helper.c:275-315 | what the words before a bare `--` make of the flags: nokaslr, noinitrd and novamap are set by any of them, nochunk is that of the last `efi=` list, and early PCI DMA is decided by the last list that names one of its two options, the negative one winning inside a list |
| KernelOptions.StubOptions.EfiParseOptions | apps/helper.c:257-318 | the flags afterwards are those that the words of the line decide, in order; without a line, and without memory for its copy, nothing changes |
| Numbers.ValueToHex | lib/print.c:1330-1358 | writes the hexadecimal digits and a NUL, and nothing else |
| Numbers.ValueToString | lib/print.c:1361-1404 | writes sign, digits and, if wanted, commas, and a NUL, and nothing else, for every signed 64-bit value |
| Numbers.PutDigits | lib/print.c:1392-1403 | the comma counter puts out the digits with a comma before each group of three |
| Numbers.Xtoi | lib/str.c:267-296 | the number at the head of the text behind blanks, modulo 2^64 |
| Numbers.Atoi | lib/str.c:298-323 | the same in decimal |
| Numbers.HexRoundTrip | lib/print.c:1330-1358 | xtoi reads back every printed 64-bit value |
| Numbers.DecRoundTrip | lib/print.c:1361-1404 | Atoi reads back every printed non-negative value, and the magnitude of a negative one behind its sign, INT64_MIN included |
| Numbers.CommasEveryThree | lib/print.c:1392-1403 | commas sit exactly at every fourth place from the right, and without them the plain digits remain |
| Numbers.HexShape | lib/print.c:1330-1358 | hexadecimal numbers have digits and capital letters only, and no zero in front but the number 0 |
| Numbers.DecShape | lib/print.c:1361-1404 | decimal numbers have digits only, no zero in front but the number 0, and a minus sign exactly below it |
| Numbers.XtoiReads | lib/str.c:267-296 | xtoi reads every printed number modulo 2^64, with any blanks in front and anything but a hexadecimal digit behind it |
| Numbers.AtoiReads | lib/str.c:298-323 | Atoi likewise for decimal numbers |
| Numbers.XtoiIgnoresCase | lib/str.c:283-289 | small and capital letters are the same digits |
| PrintBuffer.PoolPrint.SPrint | lib/print.c:313-352 | appends what fits below maxlen, and a NUL behind it |
| PrintBuffer.PoolPrint.PoolPrint | lib/print.c:355-397 | appends everything if the string has room or can grow; otherwise the text so far is lost |
| PrintBuffer.PrintState.PFlush | lib/print.c:903-915 | hands over what the buffer holds, under the attribute that is set: all that was printed is then delivered, none of it twice |
| PrintBuffer.PrintState.PSetAttr | lib/print.c:917-932 | nothing is pending when an attribute changes, so that no character changes its attribute, and the old one is remembered |
| PrintBuffer.PrintState.PPutc | lib/print.c:934-954 | one character more, with a carriage return before a newline, wherever the buffer ends |
| PrintFormat.PItem | lib/print.c:972-1029 | puts out the layout of an item: clipped to the field width, padded to the width, blank to the field width |
| PrintFormat.LayoutShape | lib/print.c:983-1028 | the layout is as long as text, width and field width demand, shows the clipped text, and is padding elsewhere |
| PrintFormat.Setting | lib/print.c:1128-1163 | one setting of a directive, or all digits of a number, is read as the directive's specification says |
| PrintFormat.PrintDirective | lib/print.c:1102-1319 | from behind a `%`, puts out exactly the item the directive stands for, under the attribute it asks for, and leaves the attribute it says behind |
| PrintFormat.Print | lib/print.c:1088-1325 | the concatenation of all chunks is the rendering of the format, each character under its attribute, wherever the 200-character buffer was flushed, and the result is its length |
| PrintFormat.UnicodeVSPrint | lib/print.c:423-463 | the string is the longest prefix of the rendering that fits, with a NUL behind it, and the result its length; a size below 2 is no limit |
| PrintFormat.VPoolPrint | lib/print.c:503-532 | with memory the returned string is the whole rendering with a NUL behind it |
| PrintFormat.CatPrint | lib/print.c:566-596 | with memory the rendering is appended to what the string held |
| PrintLaws.PlainFormat | lib/print.c:1095-1100 | text without directives prints as itself, with a carriage return before every newline |
| PrintLaws.RenderAppend | lib/print.c:1095-1319 | a format behind another renders behind it, with the arguments the first has left |
| PrintLaws.DirectiveStays | lib/print.c:1115-1315 | a directive does not depend on what follows it |
| PrintLaws.PrintedHexReads | lib/print.c:1288-1294 | what `%lx` prints, xtoi reads, for every 64-bit value |
| PrintLaws.PrintedDecReads | lib/print.c:1191-1198 | what `%ld` prints of a non-negative value, Atoi reads |
| PrintLaws.LongUnsigned | lib/print.c:1274-1280 | `%lu` prints a value in unsigned decimal exactly if it is below 2^63 |
| PrintLaws.GreatestPrintsAsMinusOne | lib/print.c:1274-1280 | the greatest value prints as -1 |
| PrintLaws.ShortUnsigned | lib/print.c:1274-1280 | `%u` prints its 32 bits in unsigned decimal |
| PrintLaws.PointerUnpadded | lib/print.c:1242-1254 | `%lp` prints 0x and the digits, without padding |
| PrintLaws.NormalAttribute | lib/print.c:1234-1314 | `%N` ends its directive exactly if there is an attribute to set; else what follows goes on with it |
| PrintWidths.FormDirective | lib/print.c:1041-1054 | any combination of `-`, `,`, `0`, a width, a field width behind a dot, each a number or `*`, and `l` asks for just that of any conversion |
| PrintWidths.PrintsText | lib/print.c:1165-1177 | with any such form, `%s` and `%a` print their string, `(null)` for a null pointer, and `%c` its character |
| PrintWidths.PrintsHex | lib/print.c:1282-1294 | `%x` and `%X` print 64 or 32 bits in hexadecimal, `%X` filled with zeros to 16 or 8 places whatever the width |
| PrintWidths.PrintsPointer | lib/print.c:1242-1254 | `%p` prints 0x and the digits with width 0 |
| PrintWidths.PrintsDecimal | lib/print.c:1191-1198 | `%d` prints 64 or 32 bits as a signed number, `%u` 64 bits as a signed one and 32 as an unsigned one |
| PrintWidths.PrintsOthers | lib/print.c:1119-1300 | `%%` prints a percent sign and letters without meaning a question mark, both without an argument; the conversions other units format print their text, a device path 99 characters of it |
| PrintWidths.WidthOfHex | lib/print.c:1144-1163 | `%0nx` prints the digits with zeros in front up to n places, `%nx` with blanks, for every n of 64 bits |
| PrintWidths.WidthOfString | lib/print.c:1132-1163 | `%ns` puts blanks in front of a text shorter than n, and so does `%-ns` |
| PrintWidths.FieldOfString | lib/print.c:1140-1163 | `%.ns` shows at most n characters and blanks in front of a shorter text, `%-.ns` behind it |
| PrintWidths.WidthFromArgument | lib/print.c:1136-1138 | `*` takes width or field width from the argument in front of the one that is printed |
| PrintWidths.BareConversions | lib/print.c:1165-1198 | what `%s`, `%a`, `%c` and the 32-bit `%d` print without a form |
| PrintWidths.CommaGroups | lib/print.c:1128-1130 | `%,ld` prints the digits in groups of three |
| PrintInks.PlainInk | lib/print.c:1097-1100 | text without directives is shown under the attribute that is set |
| PrintInks.OneItemOnly | lib/print.c:1204-1240 | `%hs` shows its text highlighted, likewise `%es` and `%ns`, and the attribute before returns exactly if it is not 0 or the item had none of its own |
| PrintInks.TwoForOneItem | lib/print.c:1204-1240 | of two such letters the second counts for the item and the first for what follows |
| PrintInks.FromThereOn | lib/print.c:1307-1312 | `%E`, `%H` and `%N` print nothing and set their attribute, if it is not 0, for what follows |
| WordScan.HasZeroExactly | lib/init.c:237 | HASZERO is non-zero exactly when some byte of the word is zero |
| WordScan.BroadcastBytes | lib/init.c:248 | ONES*c has `c` in every byte |
| WordScan.WordTest | lib/init.c:249 | HASZERO of a word xored with ONES*c is non-zero exactly if one of its eight bytes is `c` |
| WordScan.LittleEndian | lib/init.c:245-250 | the byte at the lowest address of a word is its lowest |
| WordScan.Memchr | lib/init.c:239-255 | the first of `n` bytes that equals `c`, or nothing exactly if there is none; no byte behind the `n` is read |
| WordScan.Strchrnul | apps/lib/string.c:135-155 | the first `c` of a string, or its terminator |
| WordScan.Strlen | apps/lib/string.c:38-45 | the distance to the terminator |
| DevicePath.HoldsUnique | inc/efidevp.h:52-57 | bytes in memory determine the list of nodes they hold |
| DevicePath.DevicePathSize | lib/dpath.c:286-307 | all bytes up to and including a four-byte end node |
| DevicePath.DevicePathInstance | lib/dpath.c:48-106 | start, size and successor of the first instance, as far as the node cap lets it look |
| DevicePath.DevicePathInstanceCount | lib/dpath.c:108-121 | how many calls of DevicePathInstance yield an instance |
| DevicePath.InstancesAreSplit | lib/dpath.c:68-85 | the calls yield the instances between end nodes exactly if none has more than 513 nodes |
| DevicePath.DuplicateDevicePath | lib/dpath.c:309-334 | memory of its own that holds the same nodes exactly if the end node has four bytes |
| DevicePath.AppendDevicePathInstance | lib/dpath.c:397-433 | the new path holds the nodes of Src, its end node changed to an instance end, and those of Instance, exactly if both end nodes have four bytes; the second path reaches as far behind the memory asked for as Src's end node is longer |
| DevicePath.AppendFits | lib/dpath.c:413-431 | what is written fits what is asked for exactly if Src's end node has four bytes |
| DevicePath.JoinInstances | lib/dpath.c:397-433 | the instances of the joined path are Src's followed by Instance's exactly if the calls reach Src's end; otherwise only Src's |
| DevicePath.JoinCounts | lib/dpath.c:108-121 | counts add up exactly under that condition |
| DevicePath.ShortReachesEnd | lib/dpath.c:68-96 | the condition holds if instances have at most 513 nodes, or if no other node has the subtype of the end |
| DevicePathShapes.ValidPaths | inc/efidevp.h:49-58 | a device path is a list whose last node, and no other, has type 0x7F, marked or not, and subtype 0xFF |
| DevicePathShapes.OneCall | lib/dpath.c:68-96 | one call yields the nodes before the first end node of either kind, at most 513, and goes on behind that node unless its subtype is 0xFF |
| DevicePathShapes.FirstOfSplit | lib/dpath.c:68-85 | the first instance consists of the nodes before the first end node of either kind |
| DevicePathShapes.JoinIs | lib/dpath.c:413-431 | joining changes the subtype of Src's last node to 0x01, and nothing else |
| DevicePathUnpack.UnpackDevicePath | lib/dpath.c:336-394 | the sizing pass measures exactly what the copying pass fills, and the result holds the same nodes, marked and zero-padded |
| DevicePathUnpack.CopyNodes | lib/dpath.c:371-390 | the copying pass, node by node |
| DevicePathUnpack.UnpackAligned | lib/dpath.c:351-352 | node `k` of the result is the padded node `k` of the source and starts at an aligned offset |
| DevicePathUnpack.UnpackValid | lib/dpath.c:381 | the result can be walked exactly if no padded length overflows its field: no node is longer than 65528 bytes, or 65532 where the alignment is four |
| DevicePathUnpack.UnpackInstances | lib/dpath.c:371-390 | unpacking keeps the number of instances and unpacks each |
| DevicePathUnpack.UnpackTwice | lib/dpath.c:371-390 | unpacking again changes nothing |
| DevicePathUnpack.UnpackedSrc | lib/dpath.c:413-431 | behind an unpacked Src, whatever the path, AppendDevicePathInstance asks for enough exactly where the alignment is four |
| DevicePathUnpack.UnpackedEndNode | lib/dpath.c:378-383 | the shortest such path: unpacking an end node alone, with alignment eight, gives one of eight bytes |
| DevicePathShapes.UnpackedNode | lib/dpath.c:371-390 | an unpacked node has the top bit of its type set and the fewest zeros behind its data that make its length a multiple of the alignment |
| ProtocolInstall.LibInstallProtocolInterfaces | lib/hand.c:437-519 | all-or-nothing for any list: every interface on one handle, or the database and *Handle as before, also when the first install created the handle; one call for each entry up to the first that fails, and only such a call makes it fail; the database changes at TPL_NOTIFY only and the TPL is restored |
| ProtocolInstall.LibUninstallProtocolInterfaces | lib/hand.c:522-558 | the database without those entries of the list that match and are not in use |
| ProtocolInstall.UninstallUndoes | lib/hand.c:498-511 | uninstalling a list takes back its installation, on a new or an old handle |
| ProtocolInstall.InstalledExactly | lib/hand.c:478-496 | after an installation each entry of the list is on the handle, and everything else as before |
| ProtocolInstall.RemovedExactly | lib/hand.c:548-556 | uninstalling takes exactly those interfaces away that are in the list and that no driver holds |
| ProtocolInstall.Services.InstallProtocolInterface | lib/hand.c:484 | what the firmware promises: one more interface, on a new handle for NULL, or no change |
| ProtocolInstall.Services.UninstallProtocolInterface | lib/hand.c:504 | succeeds exactly for a matching interface that no driver holds, and removes it; a handle without interfaces is gone |
| Relocate.ScanDynamic | gnuefi/reloc_riscv64.c:54-68 | the last DT_RELA, DT_RELASZ and DT_RELAENT before DT_NULL |
| Relocate.RelocateRiscv64 | gnuefi/reloc_riscv64.c:47-90 | success, error or the relocated image: every relative target holds ldbase plus its addend and no other byte changes; terminates |
| Relocate.RelocateX8664 | gnuefi/reloc_x86_64.c:45-98 | the same with ldbase added to what each target held |
| Relocate.RelocatedUnique | gnuefi/reloc_riscv64.c:76-88 | the outcome is determined by the memory before, whatever the order of entries |
| Relocate.StoringTwice | gnuefi/reloc_riscv64.c:80-81 | the storing form is idempotent |
| Relocate.AddingTwice | gnuefi/reloc_x86_64.c:86-88 | the adding form moves targets twice; it is idempotent exactly for ldbase 0 or without relative entries |
| Relocate.FormsAgree | gnuefi/reloc_x86_64.c:86-88 | both forms have the same outcome exactly if each target initially holds its addend |
| Relocate.CountCovers | gnuefi/reloc_riscv64.c:76-88 | the loop runs for every entry that relsz covers, a last one in part included |
| RelocateLaws.WordIs | gnuefi/reloc_riscv64.c:54-81 | words in the image are little-endian |
| RelocateLaws.Riscv64Stores | gnuefi/reloc_riscv64.c:76-88 | after success every entry of type 3 that DT_RELASZ covers has the load address plus its addend at the load address plus its offset |
| RelocateLaws.X8664Adds | gnuefi/reloc_x86_64.c:80-95 | after success the target of every covered entry of type 8 holds the load address more than before |
| RelocateLaws.OthersStay | gnuefi/reloc_riscv64.c:76-88 | a byte in no target of such an entry is as before, in both forms |
| RelocateLaws.IncompleteTable | gnuefi/reloc_riscv64.c:70-74 | an image without DT_RELA and DT_RELAENT is left as it is, one with only one of them is refused |

## Left out
- Console input and output, paging, graphics, and everything that only prints.
- The `%D`, `%f`, `%g`, `%r` and `%t` conversions: their texts are arguments of the model.
- PrintFormat.Print: formats that end inside a directive, for which the code reads behind its NUL, are required not to occur; the calls that set the console's attribute are modelled by the attribute that is set, not by their failure.
- PrintFormat.UnicodeVSPrint: the unlimited form is stated for strings with room for the whole rendering and at least two characters; past the end of the string the code would write on.
- Glob.MetaMatch: patterns with an unclosed set, which the code reads behind their end, are required not to occur.
- LoadOptions.EfiConvertCmdline: the conversion of the characters by snprintf is not part of this model, only the count and the cut; so are the measurement into the TPM and the quirk for Dell firmware.
- KernelOptions.StubOptions.EfiParseOptions: the word `no5lvl`, whose flag the repository does not declare, and words whose effect is commented out.
- KernelOptions.ParseOptionStr: options that contain a comma, which no caller passes.
- VirtMap.RegionPlaced: claimed, as RegionsApart, for maps whose regions with their rounding fit the 64-bit address space; idempotence and the exact map hold with wrap-around too.
- VirtMap.GetVirtmap: what the code overwrites behind a second map without enough room.
- BootExit.EfiExitBootServices: `priv_func` is exit_boot_func, the only one the program passes; descriptors have one size during a run; maps of 2^62 bytes and more do not occur; the sum of the map header and its size does not wrap.
- BootExit.DeviceTree.UpdateFdt: the parts of update_fdt before the system table and the seed for address randomisation; the tree is a property map, libfdt is not part of this model.
- BootKernel.PrepareAndExit: the pages for the new tree, and SetVirtualAddressMap behind the exit.
- The error paths of allocate_new_fdt_and_exit_boot behind a failed exit, which print and free.
- Pages.EfiAllocatePagesAligned: the memory type; and efi_allocate_pages_exact, which rounds an address down and asks for it.
- ElfLoader.LoadProgram: address wrap-around in the segments (the image is claimed without it), changing memory attributes, and load_elf's use of the results although it drops the status.
- ElfLoader.EntryExactly: claimed for program headers without address wrap-around.
- MemoryOps.Memmove: blocks that wrap around the end of memory.
- WordScan.Strchrnul: the aligned words that hold the string are required to be readable, which is what the code relies on; words are little-endian.
- DevicePath.AppendDevicePathInstance: running out of memory, for which the code has an assertion only; what the code overwrites behind its memory.
- AppendDevicePath, whose comment promises for several instances what the copied end node of Src2 prevents; AppendDevicePathNode, FileDevicePath and the texts of nodes.
- ProtocolInstall.LibInstallProtocolInterfaces: callers run at or below TPL_NOTIFY; notifications that change the database when the TPL is lowered again.
- LibReinstallProtocolInterfaces, which passes Handle instead of \*Handle.
- Relocate.RelocateRiscv64: claimed, as RelocateX8664, for relative targets in memory, apart from each other and from the table, and for entry sizes that are not negative; a negative one never ends the loop.
- strstr, simple_strtoull, memparse, get_options, hex conversion, ValidMBR: simple, or without a claim that holds.
- TCG2, random numbers, secure boot, PCI, network and shell protocols.
- The jump to the kernel, csr_write, setjmp, crt0, constructors and destructors.
