# ACPI table generation: a verified model

The repository builds ACPI tables twice: in C, with QEMU's growable byte arrays that are appended
to, prepended to and patched in place, and in Rust, with a recursive AML encoder and an assembler
for one blob of tables. This project models both sides and proves what they promise.

* **AML.** `Bytes`, `PkgLength`, `Names`, `Terms` give the vocabulary, the self-counting lengths, the
  name strings and the term language with its recursive encoding. `Decoder` reads the grammar of
  section 20.2 of ACPI 5.0 and `RoundTrip` proves it the inverse of the encoding. `AmlSink` and
  `RawBlocks` are the Rust encoders as they run; `AmlBuild` is the C builder, which is proved to emit
  the same bytes term by term. `Eisa` compares the two encoders of EISA identifiers.
* **Topology.** `Ivhd` turns a PCI tree into device-range entries, `Pptt` a CPU list into a tree of
  parent offsets, `Hotplug` and `HotplugBuild` a tree of buses into methods that call each other.
  Each has a reader or an interpreter, and a theorem that the output means what the input was.
* **Address ranges.** `Ranges` has sorting, merging and complement; `Crs` collects the BARs and
  windows of a bus; `HostCrs` composes them into the resources of the root bus, and `Windows` says
  which addresses its descriptors cover. `Srat` cuts NUMA
  memory around the low hole and the PCI hole.
* **Sizes and layout.** `DsdtPadding` is the binary search for a definition block of a given length.
  `AcpiTable`, `Fadt`, `Blob`, `MinimalAcpi` and `MinimalAcpiBuild` are the Rust blob: headers,
  checksums, tiling, pointers. `Linker`, `LinkerBuild`, `LinkerOrder`, `FadtBuild`, `AcpiBuild`
  and `Xsdt` are the C tables with the script of allocate, pointer and checksum commands that the guest runs.

Code that works step by step is a method or a class proved against a specification function, and
the theorems are lemmas about that function. `dafny verify dfyconfig.toml` checks everything.

How the model reads the source:

* Sizes that the source holds in `usize`, `size_t` or `int` are naturals. Widths are explicit where a
  value is truncated or can wrap: 32-bit package lengths, 64-bit range limits, 32-bit table offsets and
  addresses, 16-bit IVHD and I/O fields. Rust arithmetic that panics in debug builds wraps, as in
  release builds.
* `|` on fields that do not overlap is written as `+`; where they can overlap it is a bitwise or.
* A C `char` is signed, and shifts of an `int` wrap around.
* An assertion of the source is a precondition where the caller must see to it, a result (`ok`, `None`)
  where the point is when it fires, and a proof obligation where it is proved never to fire.
* Sorting is any order by base that is a permutation; equal bases may come in any order.
* A C byte array never reaches 4 GiB, because its length is 32 bits wide.
* Running the linker script has the usual meaning: a pointer command stores the address of its target
  in the slot, little-endian; a checksum command subtracts the sum of its range from the checksum byte.
  The linker itself is not part of this model.

Where the code is narrower than it looks:

* `crs_replace_with_free_ranges` drops `end` when it is the only address left over, and a used range
  that reaches the last 64-bit address makes it start again at 0 (`Ranges.FreeExact`, `Ranges.FreeAvoids`).
* The SRAT cuts are right for every node list only when the end of low memory and the start of high
  memory satisfy `Srat.Good` (`Srat.ExactIffGood`).
* The root bus advertises fixed ports below 0x0D00 and the VGA window whatever an expander bus uses; a
  gap between two claims above the width of a descriptor is truncated and may fall on a claim; and what
  32-bit claims leave free is advertised over 64-bit claims, and the other way round. The exact condition
  is in `HostCrs.BuildPci0Crs`, wherever holes and claims lie; the inputs that fail are
  `HostCrs.FixedPortsCollide`, `HostCrs.VgaCollides`, `HostCrs.TruncationCollides`,
  `HostCrs.StraddlingCollides` and `HostCrs.HighWindowCollides`.
* The legacy size of an old machine type can cut the tables off (`AcpiBuild.ScriptFits`).
* The root bus keeps the number of an expander bus when that was visited with exactly the number of the
  limit (`HostCrs.RootLimitExact`).
* The IVHD length field is 16 bits wide, and a chain of 81 full buses does not fit it (`Ivhd.LengthField`,
  `Ivhd.ChainTooLong`).
* The HATS and GATS features are shifted beyond the 32 bits that are written, so the IVHD block says 0 for
  both (`Ivhd.BlockFields`).
* The Rust FADT writes its boot architecture flags one byte too late (`Fadt.BootArchMisplaced`).
* Behind the first bridge with something to notify, every later bridge gets its scope and its call, even when
  there is nothing to notify below it (`Hotplug.KeptFromFirst`).
* `build_rsdp` gives its checksum bytes by fixed offsets, so the RSDP has to be at the start of its
  file (`AcpiBuild.RsdpOnlyAtStart`).
* Some DSDT lengths are reached by no padding (`DsdtPadding.ReachedUnlessGap`), so the target length of
  a configuration can be missed.
* `aml_eisaid` takes digits of lower case for larger numbers, and one of them can change the character
  before it (`Eisa.SameId`, `Eisa.LowerCaseDiffers`).
* A Rust path never has parent prefixes of its own, and a segment of four characters that starts with
  one is taken as it is (`Names.PathNewAgrees`).

## Model

| member | source | states |
|---|---|---|
| PkgLength.CreatePkgLength | src/acpi/aml.rs:376-412 | The bytes pushed for a length, inclusive or not, are the layout of section 20.2.4: width chosen by size, width added when the length counts itself |
| PkgLength.BuildPrependPackageLength | aml-build.c:291-347 | The fall-through cases put exactly the encoding in front of the package and leave the package unchanged, for every 32-bit length, wrap-around included |
| PkgLength.EncodersAgree | aml-build.c:291-347 | The prepending form and the pushing form give equal bytes if and only if `length + 3` does not wrap at 32 bits |
| PkgLength.RoundTrip | src/acpi/aml.rs:376-412 | Decoding in front of anything gives the length (plus the width when inclusive) if and only if the carried value is below 2^28 |
| PkgLength.WidthIsLeast | src/acpi/aml.rs:376-412 | The chosen inclusive width is the least that can hold a length counting that width |
| PkgLength.DelimitedRoundTrip | aml-build.c:359-369 | A package is read back whole, whatever follows it |
| Names.PathToAmlBytes | src/acpi/aml.rs:125-147 | Pushes root, dual or multi prefix and the segments; the same encoding the C builder is compared with |
| Names.RoundTrip | src/acpi/aml.rs:125-147 | A legal path with 1 to 255 segments is read back in front of anything: prefix, carets and segments |
| Names.BuildAppendNamestringv | aml-build.c:210-271 | Stops exactly where an assertion stops, and otherwise appends prefix characters, the count prefix and padded segments of the dotted text |
| Names.BuildAppendNameseg | aml-build.c:197-208 | A segment of at most four characters is appended padded with `_`; a longer one fails the assertion |
| Names.CNameEncodes | aml-build.c:210-271 | For the text of any path, the C builder emits what the recursive encoder gives for the path with its segments padded |
| Names.CNameRoundTrip | aml-build.c:210-271 | NameString round trip: prefix, carets and 1 to 255 legal segments come back, padded with `_` |
| Names.CNameNull | aml-build.c:210-271 | A name of prefix characters only, such as the root of aml_scope, is followed by the null name and read back as a path without segments; an empty text fails the assertion |
| Names.PathNewAgrees | src/acpi/aml.rs:149-165 | On the names Path::new accepts, both sides emit the same bytes if and only if there are at most 255 segments and the first does not start with a prefix character |
| Names.PathNewDiffers | src/acpi/aml.rs:149-165 | With a prefix character at the front of the first segment the two sides differ |
| RoundTrip.DecodeEncode | src/acpi/aml.rs:125-1550 | AML round trip: for every well-formed term and every suffix, decoding the encoding gives exactly that term and that suffix |
| RoundTrip.PrefixFree | src/acpi/aml.rs:125-1550 | No encoding is the beginning of another: equal bytes with anything behind them come from equal terms |
| RoundTrip.DecodeEncodeAll | src/acpi/aml.rs:787-802 | A term list, such as the body of a scope or a definition block, is read back |
| RoundTrip.ReadIntBack | src/acpi/aml.rs:171-226 | An integer of any of the four widths is read back, and starts with an integer opcode |
| RoundTrip.ReadElements | src/acpi/aml.rs:265-278 | Package elements, data or names without arguments, are read back as such |
| RoundTrip.ReadEntriesBack | src/acpi/aml.rs:973-1003 | Named and reserved field entries are read back in order with their widths |
| AmlSink.QWordToAmlBytes | src/acpi/aml.rs:216-226 | Cascading to the narrower integer types gives the shortest encoding of the value |
| AmlSink.ToAmlBytes | src/acpi/aml.rs:125-1550 | Every to_aml_bytes of the term language pushes the recursive encoding and nothing else |
| AmlSink.BufferTermToAmlBytes | src/acpi/aml.rs:1513-1525 | The term is the size of a buffer without data |
| AmlSink.BufferDataToAmlBytes | src/acpi/aml.rs:1538-1550 | The data behind its own length, in a package length that counts both |
| AmlSink.ResourceTemplateToAmlBytes | src/acpi/aml.rs:490-516 | Descriptors and end tag become one buffer although data length and package length are computed apart |
| AmlSink.PackageBuilder.AddElement | src/acpi/aml.rs:323-327 | Keeps data and count in step with the list of elements added |
| AmlSink.PackageBuilder.BuilderToAmlBytes | src/acpi/aml.rs:293-302 | A package built element by element has the bytes of the Package of the same elements |
| RawBlocks.CopyWithin | src/acpi/aml.rs:854-871 | An overlapping move towards the end: the moved bytes arrive as they were, the rest is kept |
| RawBlocks.ScopeRaw | src/acpi/aml.rs:854-871 | Resizing and shifting in place gives the bytes of Scope for every path and every child byte string |
| RawBlocks.DeviceRaw | src/acpi/aml.rs:811-823 | Gives the bytes of Device for every path and every child byte string |
| AmlBuild.BuildAppendInt | aml-build.c:381-397 | Appends the same shortest integer as the Rust cascade |
| AmlBuild.BuildPackage | aml-build.c:359-369 | Length, then opcode and its prefix, go in front of what the buffer held |
| AmlBuild.BuildBuffer | aml-build.c:498-506 | Buffer size, package length and opcode go in front |
| AmlBuild.AmlAppend | aml-build.c:508-543 | Only the parent changes: its old bytes stay a prefix and the child is added as its kind demands, so one child can be appended many times; a resource template becomes the buffer of its descriptors with the end tag 79 00, as on the Rust side |
| AmlBuild.TemplateEmits | aml-build.c:523-534 | The bytes aml_append adds for a resource template are those ResourceTemplate pushes: the buffer of the descriptors and the end tag with its zero checksum |
| AmlBuild.SamePackage | aml-build.c:359-369 | Below 2^28 a package of the C side is the package of the Rust side |
| AmlBuild.BuildOpcode2ArgDst | aml-build.c:685-698 | Two operands and a target, a missing target being a null name |
| AmlBuild.AmlCompare | aml-build.c:1063-1097 | Each comparison, plain or negated (aml_lnot, or the constructor of its own), has the bytes of the Rust comparison |
| AmlBuild.CreateFieldCommon | aml-build.c:1238-1246 | A buffer field named by any text the name builder accepts |
| AmlBuild.AmlField | aml-build.c:1205-1235 | Flags byte and field entries, appended one by one, names padded and widths as the prepending form writes them |
| AmlBuild.CEntriesAre | aml-build.c:1205-1221 | For four-character names and widths below 2^28 they are the entries of the Rust side |
| AmlBuild.AppendTerms | aml-build.c:508-543 | Building and appending each term in turn appends the encoding of the list |
| AmlBuild.BuildTerm | aml-build.c:458-543 | Refinement: for every term both sides can build, constructors and aml_append emit the bytes of the recursive encoding |
| Eisa.AmlEisaid | aml-build.c:1323-1352 | For any seven characters: always a DWord, most significant byte first, of the fields as Hex2Digit and wrapping shifts give them, put together with a bitwise or |
| Eisa.SameId | src/acpi/aml.rs:424-445 | On every name EISAName accepts the two compute the same identifier if and only if each digit a to f of lower case follows a character that has the stray bit of Hex2Digit set already |
| Eisa.LowerCaseDiffers | aml-build.c:1323-1352 | PNP0a03 is one on which they differ |
| Eisa.BothPack | src/acpi/aml.rs:424-445 | On identifiers of the standard form both compute the packed number |
| Eisa.EisaAgrees | src/acpi/aml.rs:424-445 | On every name EISAName accepts both sides write the same bytes if and only if the four digits are not all zero and no digit of lower case leaves a stray bit |
| Eisa.EisaRoundTrip | aml-build.c:1335-1352 | Reading the DWord back gives the three letters and four digits |
| Eisa.BigEndian | src/acpi/aml.rs:424-437 | The four bytes of the DWord are the identifier, most significant byte first |
| Eisa.RootBridge | aml-build.c:1323-1352 | PNP0A03 is 41 D0 0A 03 |
| Ranges.SortRanges | aml-build.c:107-124 | The sort by base used by merge and complement: ordered and a permutation |
| Ranges.RangeArray.Merge | aml-build.c:161-195 | The merge loop computes the specified merge of the sorted list |
| Ranges.RangeArray.ReplaceWithFreeRanges | aml-build.c:127-155 | The loop over `free_base`, 64 bits wide, computes the specified free list |
| Ranges.MergeUnion | aml-build.c:161-195 | Merging keeps the union of any valid ranges with non-zero bases |
| Ranges.MergeGaps | aml-build.c:161-195 | For disjoint input the result is sorted and no two ranges are adjacent |
| Ranges.MergeFromEnds | aml-build.c:161-195 | A merged range never leaves the bounds of its input |
| Ranges.FreeComplement | aml-build.c:127-155 | For unsorted disjoint ranges in [start, end]: sorted, disjoint, inside, and the complement except that a lone `end` is dropped |
| Ranges.FreeExact | aml-build.c:127-155 | The result is exactly the complement if and only if no range reaches the last address and `end` is not left over alone |
| Ranges.FreeAvoids | aml-build.c:127-155 | The result shares no address with the used ranges if and only if none reaches the last 64-bit address, or all lie above `end`, or `end` is 0 |
| Ranges.FreeFromAvoidsRepeated | aml-build.c:127-155 | Repeated ranges, as several CXL buses insert them, do no harm |
| Ranges.FreeFromInside | aml-build.c:127-155 | Free ranges are valid and inside the interval even when used ranges overlap |
| Crs.RangeSet.File | aml-build.c:2286-2374 | A range goes to I/O, 32-bit or 64-bit memory by kind and by whether it ends below 4 GiB and fits 32 bits |
| Crs.FileDevice | aml-build.c:2286-2374 | BARs and, for a bridge, its I/O, memory and prefetchable windows are filed in order |
| Crs.BusFiled | aml-build.c:2286-2374 | A range is collected in a space if and only if its base is not 0 and not above its limit, some present device has it as a BAR [addr, addr + size - 1] or its bridge as the I/O, memory or prefetchable window, and the kind, the end and the length decide for that space |
| Crs.MaxBusGreatest | aml-build.c:2276-2325 | The highest bus number is the greatest of the number of the bus and all subordinate numbers |
| Crs.BusRangesKept | aml-build.c:2286-2374 | For every set of BARs and windows, all filed ranges are usable and the 32-bit ones end below 4 GiB |
| Crs.MergeFacts | aml-build.c:2376-2403 | After merging the union is the same and the bounds still hold; disjoint ranges come out with gaps |
| Crs.MergeAndEmit | aml-build.c:2376-2416 | The 32-bit assertion never fires after merging: it is proved at the place it stands |
| Crs.BuildCrs | aml-build.c:2269-2430 | Descriptors of exactly the merged ranges and of the bus numbers, and the same ranges added to the set |
| Crs.ExactWhenKept | aml-build.c:1393-1445 | A descriptor has the kind and the translation asked for; its ends and its length (max - min + 1) are exact for kept memory ranges, and for I/O if and only if the range ends below 4 GiB |
| HostCrs.AddBus | acpi-build.c:1642-1716 | One more expander bus keeps the set faithful: disjoint entries whose union is what the buses claim |
| HostCrs.CollectExpanders | acpi-build.c:1642-1716 | After all buses the sets hold exactly the claims of the expanders, the CXL window of every CXL bus, and the limit of the root bus |
| HostCrs.RawFiled | acpi-build.c:1642-1716 | A range is claimed if and only if some device behind a bus of an expander root has it, as a BAR or as a window of its bridge |
| HostCrs.MemFiled | acpi-build.c:1642-1777 | The claims on memory are those ranges, the CXL window as soon as one expander is a CXL bus, and MMCONFIG |
| HostCrs.FreeAvoidsClaims | acpi-build.c:1725-1777 | A free range of a faithful set touches no claim |
| HostCrs.Advertise | acpi-build.c:1745-1777 | Describes what crs_replace_with_free_ranges leaves, in order: the free ranges of one space avoid every claim, are exactly the free runs between the collected ranges, and inside the hole they are described exactly |
| Windows.FreeBounded | aml-build.c:127-155 | A free range goes back to a used address, or to the start with everything used above it; and up to a used address, or to the end with everything used below it |
| Windows.GapFound | aml-build.c:127-155 | Every gap between two used ranges is found free, wherever it lies |
| Windows.RunFound | aml-build.c:127-155 | So is every free run: a gap, the room below all used ranges, the room above them when it is longer than one address |
| Windows.FreeIsRuns | aml-build.c:127-155 | The free ranges of any used ones that do not overlap are exactly the free runs, whatever the order of the sort |
| Windows.RunsMeet | acpi-build.c:1749-1793 | For any claims whatever: some descriptor of the free ranges, fields truncated, covers a claimed address if and only if a free run, truncated, encloses one |
| Windows.RunsOntoOwn | acpi-build.c:1749-1777 | Onto the claims that left it free a run falls if and only if it is a gap above the width |
| Windows.MeetsIffWraps | acpi-build.c:1749-1777 | Over all descriptors of the free ranges, fields truncated: one covers a used address if and only if a gap between used ranges above the width wraps onto one |
| Windows.NoWrapBelow | acpi-build.c:1749-1777 | Claims that end below the width leave no such gap |
| HostCrs.BuildPci0Crs | acpi-build.c:1725-1802 | The fixed windows and, for every space whose claims are disjoint and end below the last address, exactly the runs left free in the hole; then over all port and memory descriptors a claimed port is advertised if and only if a claim lies in the fixed ports or a gap above 0xFFFF wraps onto one, and a claimed memory address of any width if and only if a claim lies in the VGA or TPM window, or a run left by the 32-bit claims, cut to 32 bits, or a run left by the 64-bit claims encloses one; claims inside their hole give descriptors with the true ends and length |
| HostCrs.FixedParts | acpi-build.c:1725-1802 | Bus numbers from 0 to the limit, the configuration ports 0xCF8-0xCFF, the ports below them, the VGA window and the TPM window are where they are said to be |
| HostCrs.MemoryExact | acpi-build.c:1762-1802 | The memory half for every such template: no assumption on where the holes and the claims lie |
| HostCrs.PlacedExact | acpi-build.c:1762-1802 | With the 32-bit hole below 4 GiB, 64-bit claims above it and inside the 64-bit hole, and the CXL window and MMCONFIG apart from that hole, the 32-bit claims alone decide: VGA and TPM windows clear, and no gap above 4 GiB that wraps onto a claim |
| HostCrs.PortsFreeInHole | acpi-build.c:1745-1757 | Port claims inside 0x0D00-0xFFFF meet the safe condition |
| HostCrs.MemoryFreeInHole | acpi-build.c:1764-1777 | Memory claims inside a 32-bit hole above the VGA window and apart from the TPM meet the safe condition |
| HostCrs.FixedPortsCollide | acpi-build.c:1740-1748 | With a BAR at port 0x0C00 the template covers a claimed port |
| HostCrs.VgaCollides | acpi-build.c:1759-1764 | With a BAR at 0xB0000 the template covers a claimed address |
| HostCrs.TruncationCollides | acpi-build.c:1766-1777 | So it does with a BAR at 0xC0000000 when the CXL window and MMCONFIG lie above 4 GiB with room between them |
| HostCrs.StraddlingCollides | aml-build.c:2330-2376 | So it does with a bridge whose prefetchable window straddles 4 GiB: the window counts as 64-bit, and the 32-bit hole is advertised over it |
| HostCrs.HighWindowCollides | acpi-build.c:1704-1714 | So it does with a CXL expander whose window lies inside the 64-bit hole, because the window is kept with the 32-bit ranges |
| HostCrs.RootLimitExact | acpi-build.c:1654-1657 | The bus numbers kept by PCI0 end below the lowest expander, and leave out all expanders, if and only if that one was below the limit when it was visited |
| HostCrs.RootLimitCollides | acpi-build.c:1654-1657 | Two expanders visited in descending order with consecutive numbers: PCI0 claims one of them |
| Srat.BuildSratMemory | aml-build.c:1924-1940 | Appends the 40-byte structure of an entry |
| Srat.EntryRoundTrip | aml-build.c:1924-1940 | Base, length, node and flags are read back at the offsets of section 5.2.16.2 of ACPI 4.0, and the reserved bytes are 0 |
| Srat.EntryAt | aml-build.c:1924-1940 | Entry k is the 40 bytes at 40 k |
| Srat.BuildSrat | acpi-build.c:2105-2177 | The loop emits the entries of its 64-bit arithmetic for any nodes and any memory map, then pads; where everything fits 64 bits they are the entries of the specified run |
| Srat.NothingWraps | acpi-build.c:2105-2160 | With the memory and both holes within 64 bits, every entry and every next address is what unbounded arithmetic gives |
| Srat.RunExact | acpi-build.c:2105-2158 | After every node the enabled entries are ascending, disjoint and cover exactly [0, next_base) minus the two holes, for any nodes in a good layout |
| Srat.NodeExact | acpi-build.c:2105-2158 | In a good layout an address is covered by an enabled entry of node i if and only if it lies between the next addresses before and after that node and in no hole |
| Srat.EntriesTagged | acpi-build.c:2120-2158 | Every entry written for memory is enabled and names a node of the list |
| Srat.ExactIffGood | acpi-build.c:2105-2158 | The cuts are right for every node list if and only if the layout is good, a condition on the two boundaries only |
| Srat.TwoMegabytes | acpi-build.c:2105-2158 | In any other layout one node of 2M already gets memory inside the PCI hole or in the 640K hole |
| Srat.Conservation | acpi-build.c:2105-2158 | Enabled length plus what fell between 640K and 1M (at most 384K) is the memory of all nodes |
| Srat.CutsOnce | acpi-build.c:2111-2158 | Over a run at most one node is cut at 640K and at most one at the PCI hole, so there are at most nodes + 2 entries |
| Srat.SlotCount | acpi-build.c:2173-2177 | Without NVDIMM and SGX structures the padding ends with exactly nodes + 2 |
| DsdtPadding.EncodeDsdtBody | src/acpi/dsdt/mod.rs:64-79 | The unpadded body and, for a positive length, the QPAD buffer |
| DsdtPadding.PadShape | src/acpi/dsdt/mod.rs:64-79 | The padding is Name (QPAD, Buffer) and ends in as many zeros as asked for |
| DsdtPadding.StrictlyIncreasing | src/acpi/dsdt/mod.rs:64-79 | One more byte of padding makes the block longer |
| DsdtPadding.ReachedUnlessGap | src/acpi/dsdt/mod.rs:64-79 | A length below 4 GiB is reached by some padding if and only if it is not one of the listed gaps |
| DsdtPadding.Overshoot | src/acpi/dsdt/mod.rs:54-61 | Between a padding that is too short and its successor that is too long, the fallback overshoots by at most 9 bytes |
| DsdtPadding.Fallback | src/acpi/dsdt/mod.rs:54-61 | The fallback loop runs at most once |
| DsdtPadding.EncodeDsdtWithPadding | src/acpi/dsdt/mod.rs:24-62 | The search ends; the body is a prefix of the result; with its 36 header bytes it has the target length exactly unless the difference is a gap, and is longer by at most 9 bytes otherwise |
| Pptt.BuildProcessorHierarchyNode | aml-build.c:1971-1995 | Appends the 20-byte node with flags, parent offset and id |
| Pptt.BuildPptt | aml-build.c:2001-2071 | Stops exactly where an assertion fires, and otherwise leaves the nodes of the specified run |
| Pptt.AssertionsHoldIffSorted | aml-build.c:2001-2071 | The assertions hold if and only if the CPU list is sorted by the tracked ids |
| Pptt.Hierarchy | aml-build.c:2001-2071 | For a sorted list: one leaf per CPU in order, whose parents lead over its core, cluster and socket; no container twice, none without a CPU |
| Pptt.Flags | aml-build.c:2020-2066 | A leaf has flags 0x0E where threads are told apart and 0x0A where not, a socket has flags 1, and a cluster or a core above threads has flags 0 |
| Pptt.ParentsComeFirst | aml-build.c:2001-2071 | Every node but a package points at an earlier node that is not a leaf |
| Pptt.NodeAtOffset | aml-build.c:1971-1995 | The offsets used as parents are where the nodes can be read back from the table: type 0, length 20, flags, parent, id, no private resources |
| Ivhd.InsertIvhd | acpi-build.c:2370-2449 | The recursion over the shared blob appends the entries of the specified walk |
| Ivhd.Coverage | acpi-build.c:2370-2449 | Each function of a properly numbered tree is covered by exactly one Select, Range or Alias-Range entry, with its requester id |
| Ivhd.AtMostOnce | acpi-build.c:2370-2449 | No id, of a present function or not, is covered twice |
| Ivhd.HostCoverage | acpi-build.c:2452-2468 | The same over all host bridges, and nothing of a host that bypasses the IOMMU |
| Ivhd.ParseEncode | acpi-build.c:2370-2449 | The entries survive their bytes |
| Ivhd.BuildIvhd | acpi-build.c:2471-2571 | The block of the device: header with the counted length, its fields, entries (or the catch-all), and the IOAPIC entry |
| Ivhd.BlockFields | acpi-build.c:2471-2571 | Every field of the block at its offset: type 0x10, flags 0xD1, device, capability, registers, features 0x44; the entries are read back as the walk, or are the one of type 1; the IOAPIC entry names 0x00A0 |
| Ivhd.HostsSizeIs | acpi-build.c:2370-2468 | The entries take the bytes the trees call for: 4 for each function walked, 8 more for a leaf bus, 12 more for a conventional bridge, none for a bypassed host |
| Ivhd.LengthField | acpi-build.c:2510-2553 | The block has the size computed from the trees, and its length field says so if and only if that size fits 16 bits |
| Ivhd.ChainTooLong | acpi-build.c:2510-2553 | A properly numbered chain of 81 buses whose length field is wrong |
| Hotplug.Runs | acpi-build.c:625-686 | Running the root PCNT finds every `^Sxx.PCNT` it calls and leaves exactly the expected notifications, parents first, each while its bus is selected |
| Hotplug.OncePerBus | acpi-build.c:625-686 | Each bus with a selector in the non-root subtree is notified once with each code, and nothing else is |
| Hotplug.ReturnsWhetherAny | acpi-build.c:625-686 | The value returned says whether there is anything to notify, although the counter accumulates over siblings |
| Hotplug.Quiet | acpi-build.c:636-653 | A child without selectors below it expects nothing and generates an empty method |
| Hotplug.KeptFromFirst | acpi-build.c:636-653 | No child is kept before the first bridge below which there is something to notify; from there on every bridge has its scope and its call, silent or not |
| Hotplug.SlotName | acpi-build.c:636-637 | The scope of a function is named S, two hexadecimal digits in upper case that give its devfn, and the padding |
| Hotplug.Spelled | acpi-build.c:660-680 | BNUM, DVNT, PCIU, PCID and PCNT are what the program names |
| Hotplug.FindKept | acpi-build.c:636-653 | With distinct devfns each call finds the scope of its own child |
| HotplugBuild.BuildAppendNotificationCallback | acpi-build.c:625-686 | Counter, queue and appended scopes leave the bytes of the specified program, and the value that says whether it notifies |
| HotplugBuild.BuildPcnt | acpi-build.c:660-680 | Own notifications first, then a call for each bus of the queue in order |
| HotplugBuild.ProgramGood | acpi-build.c:625-686 | Whatever fits a package is a well-formed program of names, calls and scopes |
| HotplugBuild.BytesRun | acpi-build.c:625-686 | End to end: the bytes are read back as the program and running it notifies exactly those buses |
| AcpiTable.AcpiChecksum | src/acpi/checksum.rs:1-4 | The byte that brings the sum of all bytes to 0 modulo 256 |
| AcpiTable.ChecksumZeroesSum | src/acpi/header.rs:32-39 | Patched over a zero byte it makes the whole sum 0 |
| AcpiTable.EncodeHeader | src/acpi/header.rs:17-29 | Filling the array slice by slice gives the header layout |
| AcpiTable.FinalizeTable | src/acpi/header.rs:32-39 | Every header field is in its place, the length counts the table, the body is untouched and the sum is 0 |
| AcpiTable.BuildRsdt | src/acpi/rsdt.rs:4-20 | Slot by slot the low 32 bits of each entry, in a finalized table |
| AcpiTable.BuildRsdp | src/acpi/rsdp.rs:4-14 | Signature, OEM id and RSDT address at their offsets, sum 0 |
| Fadt.Patch | src/acpi/fadt.rs:161-177 | Replaces the bytes at one place and nothing else |
| Fadt.PatchNext | src/acpi/fadt.rs:161-177 | A patch above the earlier fields keeps all of them, and 0 elsewhere |
| Fadt.BuildFadtWithFacs | src/acpi/fadt.rs:71-159 | No patch disturbs an earlier field, unpatched bytes are 0, the table is finalized |
| Fadt.Pointers | src/acpi/fadt.rs:71-159 | FACS and DSDT addresses are at table offsets 36, 40 and 140, and the 64-bit FACS address is 0 |
| Fadt.Blocks | src/acpi/fadt.rs:87-105 | SCI interrupt and the ports of the register blocks at table offsets 46, 56, 64, 76 and 80 |
| Fadt.Lengths | src/acpi/fadt.rs:106-111 | Block lengths at 88, 89, 91 and 92, and both latencies 0x0FFF |
| Fadt.Fixed | src/acpi/fadt.rs:112-136 | Century 0x32, the fixed flags 0x84A5 and above eight CPUs 0x484A5, reset register and value |
| Fadt.Extended | src/acpi/fadt.rs:137-156 | The four generic addresses, with the width of the GPE block between 8 and 255 bits |
| Fadt.BootArchMisplaced | src/acpi/fadt.rs:113-113 | The boot architecture flags are written at offset 110, so the field at 109 reads 0x0200 in place of 2 |
| Blob.AcpiBlobBuilder.ReserveFront | src/acpi/blob.rs:30-34 | Padding of ones up to the wanted length |
| Blob.AcpiBlobBuilder.AppendTable | src/acpi/blob.rs:45-55 | Data and reference list only grow; the reference holds offset and length modulo 2^32 |
| Blob.AcpiBlobBuilder.AppendPlaceholderTable | src/acpi/blob.rs:57-66 | The same for a table of zeros |
| Blob.Appends | src/acpi/blob.rs:45-66 | Every append keeps the tables before it |
| Blob.Tiling | src/acpi/blob.rs:21-78 | Below 4 GiB the recorded tables tile the data from the padding to the end, and each reference stands for exactly the bytes appended under it |
| Blob.TilesApart | src/acpi/blob.rs:21-78 | No two tables overlap |
| MinimalAcpi.ProperSums | src/acpi/mod.rs:127-238 | Every table but the FACS adds up to 0 |
| MinimalAcpi.NamesDistinct | src/acpi/mod.rs:127-238 | No configuration appends two tables under one signature, so the layout map loses none |
| MinimalAcpi.NamesWanted | src/acpi/mod.rs:127-238 | A table is in the blob if and only if its switch calls for it, and they come in the order of the source |
| MinimalAcpi.ProperHeader | src/acpi/mod.rs:127-238 | Signature as text, length, revision 3 for FADT and MADT and 1 otherwise, and the five identifiers of the configuration |
| MinimalAcpi.PlaceholderLengths | src/acpi/mod.rs:102-125 | The length of each placeholder; for the SRAT 48, 16 per CPU and 8 more for each APIC id from 255 on |
| MinimalAcpi.TargetLengths | src/acpi/config.rs:114-129 | 8117 bytes for one CPU; 83, 87 or 88 more for the second, third and seventeenth CPU and 86 for any other; 142 for the HPET, 17 for each PCI device |
| MinimalAcpiBuild.AppendOptional | src/acpi/mod.rs:148-217 | The optional tables appear exactly as the switches say, in order, each with the offset that goes into the RSDT |
| MinimalAcpiBuild.CollectEntries | src/acpi/mod.rs:221-255 | The RSDT entries are the addresses of the tables that are present, in order |
| MinimalAcpiBuild.BuildDsdt | src/acpi/dsdt/mod.rs:10-62 | The finished table has exactly the target length of the configuration where the unpadded table is shorter and the difference is no gap; in a gap it is longer by at most 9 bytes; otherwise it is not padded |
| MinimalAcpiBuild.BuildLayout | src/acpi/mod.rs:259-269 | One entry for each table, with its offset, length and the checksum byte at offset + 9, and no other |
| MinimalAcpiBuild.BuildMinimalAcpi | src/acpi/mod.rs:127-272 | For every configuration: the tables the switches call for, each once; and if the blob ends below 4 GiB they tile it, each is whole, sums are 0, and RSDP, RSDT and FADT lead to all of them |
| Linker.ScriptWorks | aml-build.c:1735-1755 | A script whose later commands leave earlier slots and ranges alone works: wherever the files lie, each slot holds its address and each range adds up to 0 |
| Linker.ChecksumFirstFails | aml-build.c:1735-1755 | A pointer set after the checksum that covers it spoils the sum |
| Linker.RunSpares | aml-build.c:1735-1755 | A byte range no command writes into is as the builder left it |
| LinkerBuild.AcpiTableBegin | aml-build.c:1708-1733 | Appends the header with length and checksum still 0 |
| LinkerBuild.HeaderFields | aml-build.c:1708-1733 | The 36 bytes field by field: OEM strings padded with zeros, OEM revision 1, creator BXPC, creator revision 1 |
| LinkerBuild.AcpiTableEnd | aml-build.c:1735-1755 | Patches only the length, and queues one checksum command over the whole table |
| LinkerBuild.BuildRsdt | aml-build.c:1867-1890 | One 32-bit slot and one pointer command per listed table, then the checksum |
| LinkerBuild.BuildXsdt | aml-build.c:1895-1918 | The same with 64-bit slots |
| LinkerBuild.EntriesAre | aml-build.c:1873-1888 | Entry i points at table i from its own slot |
| LinkerBuild.BuildRsdp | aml-build.c:1800-1862 | 20 bytes and one checksum for revision 0, 36 bytes and two for revision 2, pointers queued before the checksum that covers them |
| LinkerBuild.RsdpFields | aml-build.c:1800-1862 | RSD PTR, OEM id, revision, and for revision 2 the length 36, with zeros where pointers and checksums go |
| LinkerOrder.TableTidy | aml-build.c:1708-1755 | Building any table keeps the script in order, inside its files, with sources placed before they are pointed at |
| LinkerOrder.RsdpTidy | aml-build.c:1800-1862 | So does an RSDP at the start of its file |
| Xsdt.GuestFollowsXsdt | aml-build.c:1800-1918 | After the script, wherever the files are placed, the 64-bit field of a revision 2 RSDP leads to the XSDT, slot i of the XSDT to table i, and the XSDT and both parts of the RSDP add up to 0 |
| FadtBuild.BuildFadt | aml-build.c:2074-2207 | Fields by revision, pointer commands where there is something to point at |
| FadtBuild.Layout | aml-build.c:2074-2207 | 116, 244, 268 or 276 bytes by revision, and pointers to FACS and DSDT at 36, 40 and 140 |
| FadtBuild.Fields | aml-build.c:2074-2207 | Every field of every revision at its offset and width, and 0 in the fields the code leaves out |
| AcpiBuild.BuildAcpi | acpi-build.c:2661-2889 | Both files, each set to its final size, and the script are the specified ones |
| AcpiBuild.SetFinalSize | acpi-build.c:2853-2889 | A multiple of 128 KiB, or for old machine types a multiple of 4 KiB computed from the legacy length of the AML, which can cut the tables off |
| AcpiBuild.FileSizeIs | acpi-build.c:2853-2889 | The least multiple of 128 KiB that holds the tables, or with a legacy size the least multiple of 4 KiB that holds them with 97 bytes for each APIC id and the legacy size in place of DSDT and FADT; zeros behind the tables |
| AcpiBuild.Placing | acpi-build.c:2661-2833 | The tables are placed first, aligned to 64 bytes; the RSDP aligned to 16 in the low segment, followed by 16 zeros unless it lives in RAM |
| AcpiBuild.BuiltTables | acpi-build.c:2661-2760 | The DSDT right behind the FACS, then the FADT with the OEM strings, then the tables of the machine in order; the RSDT has revision 1 |
| AcpiBuild.ListedTables | acpi-build.c:2661-2833 | The RSDT lists every table but the DSDT in order, and then the tables of the user where they lie |
| AcpiBuild.ScriptFits | acpi-build.c:2853-2889 | The script stays inside the files if and only if the final size is at least the length of the tables |
| AcpiBuild.SizeKeepsTables | acpi-build.c:2853-2889 | It is without a legacy size, and while DSDT and FADT are no longer than the legacy AML; it is not when they are longer by 4 KiB or more |
| AcpiBuild.ScriptTidy | acpi-build.c:2661-2833 | As long as the size keeps the tables whole, below 4 GiB, the whole script fits the files, is in order, and names no file before it is placed |
| AcpiBuild.GuestSums | acpi-build.c:2661-2833 | Tables kept whole below 4 GiB: wherever the guest places the files, every table built, the RSDT and the RSDP add up to 0 |
| AcpiBuild.GuestPointers | acpi-build.c:2661-2833 | Kept whole and placed below 4 GiB, the guest is led from the RSDP to the RSDT, from there to every table but the DSDT in order, and from the FADT to FACS and DSDT |
| AcpiBuild.GuestHeaders | acpi-build.c:2661-2833 | Kept whole, every table keeps its signature, revision and true length |
| AcpiBuild.GuestRsdtHeader | acpi-build.c:2808-2811 | The guest finds RSDT, revision 1 and the length of its slots |
| AcpiBuild.GuestRsdp | acpi-build.c:2813-2833 | It finds RSD PTR, the OEM id and revision 0 |
| AcpiBuild.GuestUnchanged | acpi-build.c:2661-2833 | With the tables whole the script touches slots and checksum bytes only: every other byte of the table file is as the builders left it |
| AcpiBuild.GuestGetsRawTables | acpi-build.c:2661-2833 | With the tables whole the FACS and the tables of the user reach the guest as they were given |
| AcpiBuild.RsdpOnlyAtStart | aml-build.c:1800-1862 | The commands stay inside the RSDP and off its signature if and only if it is at the start of its file |

## Left out

- PowerResource in `src/acpi/aml.rs`: it writes its opcode before the extension prefix, which the AML grammar does not parse.
- Resource descriptors (fixed memory, address space, IRQ, DMA, GPIO, I2C): taken as bytes inside a template, or as kind, ends and length in the `_CRS` theorems; laying out their fields would only add easy members.
- UUIDs, Unicode strings, `aml_touuid`, `Name::new_field_name` and single opcodes without a counterpart on the other side (Break, Debug, Increment, Alias, Processor): easy members.
- `printf` formatting of names: names are given as finished text.
- Bodies of MADT, HPET, MCFG, WAET, SLIT, HMAT, DMAR, TPM and VIOT tables: byte strings in the two assemblers, because they are fixed or flat.
- `_PRT` and the PCI link devices: fixed finite tables, and the two languages do not follow the same scheme.
- The DSDT contents of both languages: they differ by design, so only the encoding primitives and the length search are compared.
- The device list of `encode_dsdt_body`: the unpadded body is a byte string.
- Name clashes between devices and methods in one scope: the interpreter of `Hotplug` looks up scopes and the PCNT method only.
- DVNT, BNUM, PCIU and PCID are not interpreted beyond what a notification is.
- QEMU objects, properties, migration, memory regions and reset handlers: inputs are plain data.
- TOML loading and command-line rendering in the Rust program.
- The size warnings of `acpi_build`; and its choice of OEM strings, which are parameters.
- Fields of the FADT that come from properties: parameters.
- The structures that the NVDIMM and SGX code adds to the SRAT: opaque bytes, because they are built elsewhere.
- Crs.BuildCrs: descriptors are records of kind, ends, translation and length, and their bytes are not laid out; bridges are given by their secondary and subordinate numbers and windows, not by configuration-space registers.
- Ivhd.BuildIvhd: the fixed twelve bytes of the IVRS table in front of the block are not built.
- AcpiBuild.BuildAcpi: tables of other files (NVDIMM, VM generation id, CXL) are sequences of fields, slots and allocations.
- Freeing memory, leaks and the growth policy of arrays.
