# Verified model of GameMemoryKit

A Dafny model of the parts of GameMemoryKit that take in untrusted bytes: the
bounds-checked `Reader`, the ELF and PE parsers, the signature-pattern compiler
and scanner, the little-endian `BufferBuilder`, and overflow-aware `Address`
arithmetic.

How the project is laid out:

- `Base`, `Reader`, `BufferBuilder` (modules `LittleEndian`, `Builder`), `Packing`:
  bytes, wrapping 32- and 64-bit sums, reads and writes.
- `ElfFormat`, `PeFormat`, `RvaMap`: what a parse means, in unbounded arithmetic and
  with whole records read at once.
- `ElfParser`, `PeParser`: the parsers as the source runs them: loops, per-field
  checked reads, and the same wrapping offset sums. Each method is proved equal to
  its meaning in the format module, error code included.
- `ElfEncoding`, `PeEncoding`: writers for the same records, in the field order of
  System V gABI chapters 4 and 5 and of the Microsoft PE format specification.
- `ElfTheorems`, `PeTheorems`, `ScannerTheorems`: what follows for callers.
- `ElfExact`, `PeExact`, `PatternGrammar`: the same meanings said a second time, on bytes
  and characters and with the numbers of the formats, including every refusal and its code.
- `PeWalk`: the PE thunk loop on buffers of any size.

Names, pattern texts and buffers are sequences; bytes are integers below 256.
Errors are codes; a pattern error also carries its position. Where the source checks
a read that an earlier guard makes infallible, the model asserts that it succeeds.

Two findings differ from the documentation of the source:

- `count` is documented as the number of non-overlapping matches. It counts
  overlapping ones too. `ScannerTheorems.CountIsDisjointForPatternIff` says for which
  patterns the two agree.
- The parser tests require that no malformed input loops forever. The PE thunk loop
  meets this exactly for buffers below 4 GiB, which is the domain of `PeParser`. For
  every size from 4 GiB on there is an image whose headers, sections and first import
  descriptor are accepted and whose thunk loop then takes no exit, because its 32-bit
  offset wraps (`PeWalk.WalkEndsIffSmall`). Running out of memory for the functions it
  collects is not modelled.

A third point concerns the ELF format: in a 64-bit image the extended string-table
index is read eight bytes wide. `ElfTheorems.NameIndexConformsIff` says when that is
the index the gABI prescribes, and `ElfTheorems.NameIndexExample` shows a whole image
that loses its section names by it.

## Model

| member | source | states |
|---|---|---|
| `Base.AdditionIsModular` | src/binary/pe.cpp:170-170 | the wrapping sums are addition modulo 2^32 and 2^64 |
| `Reader.FieldBytes` | src/binary/reader.hpp:81-100 | two- and four-byte reads are little-endian sums of their bytes |
| `Reader.ReadCString` | src/binary/reader.hpp:63-78 | the scanning loop returns the bounded NUL-terminated string, or out of range |
| `Reader.CStringExact` | src/binary/reader.hpp:61-78 | a string is returned if and only if it is NUL-free and its NUL lies inside both the buffer and the bound |
| `Reader.Sanitize` | src/binary/reader.hpp:107-116 | the copy loop replaces exactly the non-printable bytes |
| `Reader.SanitizePrintable` | src/binary/reader.hpp:105-116 | every byte outside 0x20 to 0x7E becomes a question mark and no other changes; so cleaned names are printable, cleaning is idempotent, and it changes nothing exactly on printable names |
| `Reader.CStringExtends` | src/binary/reader.hpp:63-78 | a string that was found is found unchanged in every longer buffer |
| `Reader.CStringWindow` | src/binary/reader.hpp:63-78 | inside a window the buffer already holds, appended bytes change neither success nor failure |
| `LittleEndian.LeOfBytes` | src/binary/reader.hpp:81-100 | reading the written bytes gives the value back, modulo the width |
| `LittleEndian.BytesOfLe` | src/binary/reader.hpp:81-100 | writing the value read gives the same bytes back |
| `Builder.BufferBuilder.U32` | tests/fixtures/buffer_builder.hpp:27-34 | appends the four little-endian bytes and keeps what was there |
| `Builder.BufferBuilder.U64` | tests/fixtures/buffer_builder.hpp:36-42 | the shift-and-mask loop appends the eight little-endian bytes |
| `Builder.BufferBuilder.CStr` | tests/fixtures/buffer_builder.hpp:52-57 | appends the text and one NUL |
| `Builder.BufferBuilder.Seek` | tests/fixtures/buffer_builder.hpp:65-72 | pads with zeros up to the position, never truncates |
| `Builder.BufferBuilder.MutateU32` | tests/fixtures/buffer_builder.hpp:74-82 | overwrites four bytes in place |
| `Builder.BufferBuilder.MutateU64` | tests/fixtures/buffer_builder.hpp:84-90 | the loop overwrites eight bytes in place |
| `Builder.IntegerReadsBack` | tests/fixtures/buffer_builder.hpp:14-90 | after any run of builder calls, the reader returns the last integer written at a position, appended or patched |
| `Builder.StringReadsBack` | tests/fixtures/buffer_builder.hpp:52-57 | after any run, a NUL-free string written by cstr is what cstring returns, for every larger bound |
| `Builder.SeekAndPatchFrames` | tests/fixtures/buffer_builder.hpp:65-90 | seek only pads with zeros; a patch changes exactly its own bytes |
| `Pattern.Parse` | src/pattern/pattern.cpp:30-77 | the single-pass tokenizer computes the word-by-word compilation of the text, with the position of a bad word |
| `Pattern.TokensExact` | src/pattern/pattern.cpp:39-70 | the words are exactly the maximal whitespace-free runs, in order |
| `PatternGrammar.ParseAcceptsExactlyTheGrammar` | src/pattern/pattern.cpp:30-77 | accepted exactly when there is a word and all words are "?", "??" or two hex digits; "empty" exactly when there is none |
| `PatternGrammar.ParseRejectsAtFirstBadWord` | include/gmk/pattern/pattern.hpp:46-51 | any other rejection carries the start of the first malformed word |
| `Pattern.ParseIsWordwise` | src/pattern/pattern.cpp:43-63 | byte i of the pattern is what word i denotes |
| `PatternGrammar.WordExact` | src/pattern/pattern.cpp:12-63 | a word denotes a wildcard exactly when it is "?" or "??", and a byte exactly when it is the byte's two hex digits in either case |
| `PatternGrammar.ParseExact` | src/pattern/pattern.cpp:30-77 | a text compiles to a pattern exactly when it spells the pattern bytes in order, separated and surrounded by any of the six whitespace characters |
| `PatternGrammar.EmptyExact` | src/pattern/pattern.cpp:72-74 | the error for an empty pattern comes exactly on texts of whitespace only |
| `PatternGrammar.QuestionMarksAreFree` | src/pattern/pattern.cpp:47-48 | the buffer byte under a question-mark word can be anything: a match survives any change of it |
| `Pattern.MatchesAt` | src/pattern/pattern.cpp:99-118 | the early-exit comparison decides whether the pattern occurs there, reading at most one byte per element |
| `Pattern.FirstFixedIndex` | src/pattern/pattern.cpp:84-92 | the least non-wildcard index, or none when every byte is a wildcard |
| `Pattern.HexString` | src/core/byte_view.cpp:12-25 | two lower-case digits per byte, single spaces between |
| `Pattern.HexStringDense` | src/core/byte_view.cpp:27-37 | two upper-case digits per byte, no separators |
| `PatternGrammar.HexTextExact` | src/core/byte_view.cpp:12-25 | what hex_string prints, character by character, from the digit table |
| `PatternGrammar.DenseTextExact` | src/core/byte_view.cpp:27-37 | the same for the dense printer |
| `Pattern.PrintThenParse` | src/core/byte_view.cpp:12-25 | the compiler undoes hex_string on every non-empty byte string, without wildcards |
| `Pattern.DensePrintThenParse` | src/core/byte_view.cpp:27-37 | the compiler undoes the dense printer exactly on single bytes and rejects longer output at position 0 |
| `Pattern.LiteralMatchesSubstring` | src/pattern/pattern.cpp:99-118 | a pattern of fixed bytes matches exactly where its bytes occur |
| `Scanner.MemChr` | src/pattern/scanner.cpp:38-42 | the library search: first position of the byte in the range |
| `Scanner.FindImpl` | src/pattern/scanner.cpp:10-53 | the anchored search returns the least matching offset not below the start, or none exactly when there is none, looking at each position and start at most once |
| `Scanner.AnchorRulesOut` | src/pattern/scanner.cpp:36-50 | a range without the anchor byte rules out every match anchored in it |
| `Scanner.FindFirst` | src/pattern/scanner.cpp:57-61 | the first match of the buffer; an empty pattern is an invalid argument |
| `Scanner.FindFirstFrom` | src/pattern/scanner.cpp:63-68 | the first match at or after a start |
| `Scanner.FindAll` | src/pattern/scanner.cpp:70-91 | the restarting search equals the naive scan of every offset, within (n - m + 1) * (m + 1) byte comparisons in all |
| `Scanner.Count` | src/pattern/scanner.cpp:93-113 | the number of matches of the naive scan, within the same budget |
| `Scanner.NaiveExact` | include/gmk/pattern/scanner.hpp:44-50 | matches come strictly ascending and are exactly the offsets where the pattern occurs, overlaps included |
| `Scanner.FrugalWithinBudget` | include/gmk/pattern/scanner.hpp:9-12 | a search that repeats no position and no start stays within the documented O(n*m) bound, with no factor for the number of matches |
| `ScannerTheorems.PrintParseScan` | src/pattern/scanner.cpp:70-91 | print a byte string, compile it, scan: the result is every occurrence of the string |
| `ScannerTheorems.WildcardsOnlyAddMatches` | src/pattern/scanner.cpp:23-50 | turning fixed bytes into wildcards, the anchor included, keeps all matches and never moves the first one later |
| `ScannerTheorems.DisjointIsMaximal` | include/gmk/pattern/scanner.hpp:52-53 | no choice of non-overlapping matches is larger than the left-to-right one |
| `ScannerTheorems.CountIsDisjointIff` | include/gmk/pattern/scanner.hpp:52-53 | count is the number of non-overlapping matches exactly when no two matches overlap |
| `ScannerTheorems.CountIsDisjointForPatternIff` | include/gmk/pattern/scanner.hpp:52-53 | count agrees with its documentation on every buffer exactly when the pattern fits onto no proper shift of itself |
| `ScannerTheorems.CountOverlapsExample` | src/pattern/scanner.cpp:93-113 | AA AA in AA AA AA counts two where one non-overlapping match fits |
| `Address.Address.PlusAssign` | include/gmk/core/address.hpp:130-134 | reassigns the address to the checked sum |
| `Address.Address.MinusAssign` | include/gmk/core/address.hpp:136-140 | reassigns the address to the checked sum with the negated offset |
| `Address.AddExact` | include/gmk/core/address.hpp:65-99 | the sum with a signed or an unsigned offset is exact whenever it is an address, and null otherwise |
| `Address.AddBackDifference` | include/gmk/core/address.hpp:101-105 | a.add(b.difference(a)) is b exactly when the true difference fits ptrdiff_t, and null otherwise |
| `Address.AlignDownGreatest` | include/gmk/core/address.hpp:107-114 | for every power of two, the greatest multiple not above the address |
| `Address.AlignUpLeast` | include/gmk/core/address.hpp:116-128 | the least multiple not below the address; null exactly when no such multiple is representable or the address is null |
| `Address.AlignByZero` | include/gmk/core/address.hpp:107-121 | alignment zero gives the null address |
| `ElfParser.ReadIdent` | src/binary/elf.cpp:66-90 | magic, class and encoding checks with their error codes |
| `ElfParser.ReadHeader` | src/binary/elf.cpp:109-168 | ten field reads succeed exactly when the whole header of the class is present |
| `ElfParser.ReadExtended` | src/binary/elf.cpp:213-250 | extended numbering with wrapping offsets gives the unwrapped values whenever the table offset is in the buffer |
| `ElfParser.ReadSection` | src/binary/elf.cpp:264-318 | ten wrapping, checked reads succeed exactly when the record fits, and decode it |
| `ElfParser.ReadSectionTable` | src/binary/elf.cpp:256-320 | the wrapped size check and the per-entry reads accept exactly the tables that fit in unbounded arithmetic |
| `ElfParser.WrappedTableRunsOut` | src/binary/elf.cpp:257-263 | a wrapped product that passes the guard cannot have all its records inside the buffer |
| `ElfParser.AssignNames` | src/binary/elf.cpp:322-346 | the two name loops give each section its name from the string table, or none |
| `ElfParser.ReadProgramHeaders` | src/binary/elf.cpp:348-412 | extended count, guard and reads give the whole table or an error |
| `ElfParser.ReadSymbolTable` | src/binary/elf.cpp:432-504 | no read fails behind the guard, so the result covers every entry of the table |
| `ElfParser.FilterSymbol` | src/binary/elf.cpp:474-501 | the sequence of filters is the export test |
| `ElfParser.ReadSymbols` | src/binary/elf.cpp:414-506 | dynamic table first, static table as fallback, guarded |
| `ElfParser.Parse` | src/binary/elf.cpp:176-509 | on every buffer below 2^63 bytes the parser returns the image or error that the unbounded meaning prescribes |
| `ElfExact.IdentExact` | src/binary/elf.cpp:66-90 | identified exactly with the magic, a class byte of 1 or 2 and byte order 1; another byte order is unsupported and the rest invalid |
| `ElfExact.ParseSucceedsIff` | src/binary/elf.cpp:176-412 | an image of either class is accepted exactly when identification, file header, section table and program headers are in place, said on the bytes and with extended counts |
| `ElfExact.ParseFailsWith` | src/binary/elf.cpp:66-509 | a refusal is unsupported exactly for a wrong byte order, and otherwise invalid |
| `ElfExact.NameIndexBytes` | src/binary/elf.cpp:213-250 | where the string-table index is read from, in both classes |
| `ElfExact.SymbolsExact` | src/binary/elf.cpp:414-504 | symbols are read from the first section of type 11, or without one of type 2, exactly when its link, ranges and entry size allow it; then they are the export filter of all its records, else there are none |
| `ElfExact.ImageSymbolsExact` | src/binary/elf.cpp:414-504 | the same for the image a parse returns |
| `ElfExact.ArchitectureExact` | src/binary/elf.cpp:53-63 | the architecture by e_machine, RISC-V by class |
| `ElfTheorems.SuccessfulTableIsExact` | src/binary/elf.cpp:256-320 | after a success there are exactly shnum sections, the product did not wrap, and every entry lies inside the buffer |
| `ElfTheorems.AppendIsSafeIff` | src/binary/elf.cpp:213-263 | a parse survives every appended byte string, with headers, raw sections and program headers kept and names and symbols only going from absent to present, exactly when e_shnum is not zero, or there is no section table, or the buffer reaches past the size field of section 0 |
| `ElfTheorems.SectionsSettleCount` | src/binary/elf.cpp:213-263 | every image in which a section was found meets that condition |
| `ElfTheorems.UnsettledCountBreaks` | src/binary/elf.cpp:217-263 | without the condition at most 40 appended bytes turn the success into an error |
| `ElfTheorems.AppendBreaksEmptyTable` | src/binary/elf.cpp:217-241 | an instance of the failure: a bare header with its section table at the end of the buffer |
| `ElfEncoding.SectionRoundTrip` | src/binary/elf.cpp:262-320 | a written section header of either class decodes to the same fields |
| `ElfEncoding.SectionWriteBack64` | src/binary/elf.cpp:266-291 | a 64-bit section header is reproduced byte for byte from its decoded fields |
| `ElfEncoding.SectionWriteBack32` | src/binary/elf.cpp:292-318 | the same for 32-bit section headers |
| `ElfEncoding.ProgramHeaderRoundTrip` | src/binary/elf.cpp:363-411 | a written program header of either class decodes to the same fields |
| `ElfEncoding.ProgramHeaderWriteBack64` | src/binary/elf.cpp:367-387 | a 64-bit program header is reproduced byte for byte |
| `ElfEncoding.ProgramHeaderWriteBack32` | src/binary/elf.cpp:388-409 | the same for 32-bit program headers |
| `ElfEncoding.HeaderRoundTrip` | src/binary/elf.cpp:109-168 | a written file header of either class decodes to the same fields, whatever its unread fields hold |
| `ElfEncoding.SymbolRoundTrip` | src/binary/elf.cpp:441-473 | a written symbol of either class decodes to the same fields, whatever st_other holds |
| `ElfTheorems.ParseOfEncoded` | src/binary/elf.cpp:176-509 | any buffer that carries written headers, sections and program headers at any offsets and strides, counted directly or through section 0, parses back to them in order |
| `ElfTheorems.ParseOfSerialized` | src/binary/elf.cpp:176-509 | header, program headers and sections packed in this order, with any bytes behind, parse back to the same records |
| `ElfTheorems.ImageOfEncoded` | src/binary/elf.cpp:176-509 | a buffer that carries these records, a string table with the section names and the symbol records, wherever they lie, parses to exactly the image of those records, names and exported symbols |
| `ElfTheorems.ClassesNormalise` | src/binary/elf.cpp:264-411 | 32-bit and 64-bit images of the same records, with or without program headers, parse to the same sections and program headers, names aside |
| `ElfTheorems.SymbolsAreFilterMap` | src/binary/elf.cpp:432-504 | the symbols are the order-preserving image of exactly the entries that pass the export test |
| `ElfTheorems.ExportedMeans` | src/binary/elf.cpp:474-501 | the test: defined, global or weak, OBJECT, FUNC or IFUNC, with a non-empty name whose NUL is inside the string table |
| `ElfTheorems.SymbolsOfEncoded` | src/binary/elf.cpp:432-504 | written symbols read back as the export filter of what was written |
| `ElfTheorems.SectionNameMeans` | src/binary/elf.cpp:322-346 | a section is named exactly when its name offset leads to a non-empty string of a string table inside the buffer, and by that string |
| `ElfTheorems.NameIndexConformsIff` | src/binary/elf.cpp:217-250 | the string-table index is the one the gABI prescribes exactly under the stated condition on section 0 |
| `ElfTheorems.NameIndexExample` | src/binary/elf.cpp:237-243 | a whole image parses with both its sections, but a section 0 with sh_info 1 turns index 1 into 1 + 2^32, so all names are lost although the string table at index 1 holds one |
| `RvaMap.FindOffset` | src/binary/pe.cpp:103-123 | the search loop returns what the first covering section gives |
| `RvaMap.DecidedByFirst` | src/binary/pe.cpp:103-123 | the map is decided by the least covering index, and is none without one |
| `RvaMap.RvaToOffsetExact` | src/binary/pe.cpp:103-123 | the least section whose larger size reaches past the address decides; the offset must fit 32 bits, and without such a section there is none |
| `RvaMap.OrderIndependent` | src/binary/pe.cpp:103-123 | with disjoint spans, permuting the sections changes no translation |
| `RvaMap.Contiguous` | src/binary/pe.cpp:103-123 | inside a section translation is contiguous exactly as long as the offset fits 32 bits |
| `RvaMap.Injective` | src/binary/pe.cpp:103-123 | with disjoint file spans no two addresses share an offset, even where address spans overlap |
| `RvaMap.SharedFileSpanExample` | src/binary/pe.cpp:103-123 | with shared file spans two addresses do, although the address spans are disjoint |
| `PeParser.ReadHeaders` | src/binary/pe.cpp:157-193 | DOS and COFF checks with the wrapping e_lfanew sum compute the unbounded header chain |
| `PeParser.ReadOptionalHeader` | src/binary/pe.cpp:182-251 | optional header of both classes and the section-table check |
| `PeParser.ReadSections` | src/binary/pe.cpp:264-290 | no read fails inside the checked table, and every section is decoded in order |
| `PeParser.ParseDirectories` | src/binary/pe.cpp:74-94 | the clamp never underflows and no directory read fails |
| `PeParser.ReadName` | src/binary/pe.cpp:132-147 | a name through the address map, with the two error codes |
| `PeParser.ReadExportTable` | src/binary/pe.cpp:299-336 | directory, three arrays and their range checks |
| `PeParser.ReadExport` | src/binary/pe.cpp:339-374 | one export entry through 32-bit offset sums that never wrap behind the range checks |
| `PeParser.ReadForwarder` | src/binary/pe.cpp:361-373 | forwarded exactly inside the directory when its end fits 32 bits, never when it wraps |
| `PeParser.ReadExports` | src/binary/pe.cpp:298-376 | the export list, or the first error in entry order |
| `PeParser.ReadThunk` | src/binary/pe.cpp:444-466 | by ordinal or by hint and name, on buffers of any size |
| `PeParser.ReadTurn` | src/binary/pe.cpp:425-467 | one turn of the loop at its 32-bit offset: an error, the terminator or a decoded function |
| `PeParser.ReadThunks` | src/binary/pe.cpp:425-468 | the loop without a bound ends on every input below 4 GiB, and its 32-bit sum never wraps before a read fails |
| `PeParser.ReadModules` | src/binary/pe.cpp:387-470 | the outer loop ends too, with the modules before the first all-zero descriptor or the first error |
| `PeParser.Parse` | src/binary/pe.cpp:153-474 | on every buffer below 4 GiB the parser returns the image or error that the unbounded meaning prescribes |
| `PeExact.HeadersFailWith` | src/binary/pe.cpp:157-251 | a refused header chain is out of range exactly when e_lfanew wraps or the buffer ends in front of the magic, and otherwise invalid |
| `PeExact.ParseFailsWith` | src/binary/pe.cpp:153-474 | the parse fails with the error of its first failing stage, and in that stage of the first failing entry |
| `PeExact.ExportTableExact` | src/binary/pe.cpp:299-336 | the export directory is accepted exactly when it and its three arrays are mapped and inside the buffer, else invalid |
| `PeExact.ExportFailsWith` | src/binary/pe.cpp:339-359 | which of the two error codes an entry fails with, and when |
| `PeExact.ExportsFailWith` | src/binary/pe.cpp:338-375 | the export loop fails with the error of the first entry that fails |
| `PeExact.NameExact` | src/binary/pe.cpp:132-147 | a name is the cleaned string of fewer than 4096 bytes at its address; unmapped is invalid, unterminated out of range |
| `PeExact.SectionNameExact` | src/binary/pe.cpp:278-284 | a section name is the cleaned bytes up to the first NUL, or all eight |
| `PeExact.OrdinalThunkExact` | src/binary/pe.cpp:444-449 | with its top bit set a thunk is an import by its low 16 bits |
| `PeExact.NamedThunkExact` | src/binary/pe.cpp:450-466 | without it, hint and name at its low 32 bits, with the two error codes |
| `PeExact.OrdinalNameExact` | src/binary/pe.cpp:449-449 | ordinal_ and the decimal digits of the number, without leading zeros |
| `PeExact.FunctionsFailWith` | src/binary/pe.cpp:425-468 | the thunk loop fails with the error of the first bad thunk in front of any terminator |
| `PeExact.ModulesFailWith` | src/binary/pe.cpp:387-470 | the descriptor loop likewise |
| `PeExact.ArchitectureExact` | src/binary/pe.cpp:57-66 | the architecture by the machine field |
| `PeTheorems.HeadersExact` | src/binary/pe.cpp:157-251 | the header chain succeeds exactly when each structure is where the one before says, inside the buffer |
| `PeTheorems.WrappingLfanewIsCaught` | src/binary/pe.cpp:170-178 | an e_lfanew whose 32-bit sum wraps passes the check but always fails the signature read |
| `PeTheorems.ExportsExact` | src/binary/pe.cpp:337-375 | the exports are es exactly when es has one entry per name, each read from the three arrays at its index |
| `PeTheorems.ArrayThroughMap` | src/binary/pe.cpp:320-348 | reading element k at offset + width * k is translating the address of element k, inside one section |
| `PeTheorems.FunctionsExact` | src/binary/pe.cpp:425-468 | the functions are fs exactly when fs decodes the thunks before the first zero one |
| `PeTheorems.ModulesExact` | src/binary/pe.cpp:387-470 | the modules are ms exactly when ms reads the descriptors before the first with all tested fields zero |
| `PeTheorems.ParseExact` | src/binary/pe.cpp:153-474 | the parse returns an image exactly when the header chain holds and sections, exports and imports are what the tables spell out, none missing, added or reordered |
| `PeTheorems.AppendIsSafeIff` | src/binary/pe.cpp:74-94 | appended bytes give the same image, forwarder texts that may appear aside, exactly when no data directory comes into the buffer that names an export or describes an import module |
| `PeTheorems.AppendedBytesRefine` | src/binary/pe.cpp:153-474 | in particular when the end of the buffer cut off neither of the two directories used |
| `PeWalk.RunThunks` | src/binary/pe.cpp:425-468 | on a buffer of any size, the thunk loop is still running after a number of turns exactly when none of them failed a read, met a zero thunk or failed to decode |
| `PeWalk.ReachedWalkDecides` | src/binary/pe.cpp:379-468 | a parse that reaches its first thunk array fails with the error of the loop, or returns the functions of the loop in its first module |
| `PeWalk.WalkEndsIffSmall` | src/binary/pe.cpp:425-468 | the loop ends on all images of a size that reach it exactly when that size is below 4 GiB |
| `PeEncoding.HeadersOfEncoded` | src/binary/pe.cpp:157-251 | written headers at any e_lfanew are recovered field by field, in both classes, for buffers of any size and whatever the unread fields hold |
| `PeEncoding.HeadersCarriedIff` | src/binary/pe.cpp:157-251 | the header chain returns h for exactly the buffers that carry h with some unread fields at some place |
| `PeEncoding.SectionRoundTrip` | src/binary/pe.cpp:264-290 | a written section header with a storable name decodes to the same section, whatever its relocation fields hold |
| `PeEncoding.SectionsOfEncoded` | src/binary/pe.cpp:264-290 | a written section table is recovered in order |
| `PeEncoding.ExportTableOfEncoded` | src/binary/pe.cpp:299-336 | a written export directory leads to the three arrays it names, whatever its unread front holds |
| `PeEncoding.ExportsOfEncoded` | src/binary/pe.cpp:337-375 | written arrays, names and forwarder texts come back as the named exports in order, addresses taken through the ordinal indices |
| `PeEncoding.DescriptorRoundTrip` | src/binary/pe.cpp:392-402 | a written import descriptor decodes to its three tested fields, whatever timestamp and chain hold |
| `PeEncoding.ThunkRoundTrip` | src/binary/pe.cpp:444-466 | a written import decodes to itself in both widths, by ordinal or by name at any address that leaves the ordinal flag clear |
| `PeEncoding.FunctionsOfEncoded` | src/binary/pe.cpp:425-468 | a written zero-terminated thunk array is read back function by function |
| `PeEncoding.ModulesOfEncoded` | src/binary/pe.cpp:387-470 | a written descriptor table is read back module by module, names and functions included, up to its terminator |
| `PeEncoding.DirectoriesOfEncoded` | src/binary/pe.cpp:74-94 | written data directories are recovered in order |
| `PeEncoding.ParseOfEncoded` | src/binary/pe.cpp:153-474 | any buffer that carries the headers, sections, directories, exports and imports of an image, wherever they lie and in either class, parses to exactly that image |

## Left out

- `BinaryImage`: dispatch between the two parsers, accessors and file reading; thin or I/O.
- Error message text, `to_string` tables, logging and `Result` lifetimes: no part of what the parsers compute.
- `reserve` and allocation failure: vectors are sequences of any length.
- Big-endian hosts: `read_le` is defined as little-endian.
- Section flag predicates and architecture names: one-line tests.
- Symbol tables that declare entries larger than 24 or 16 bytes: the source strides by the fixed size and so does the model; agreement with the gABI is not claimed.
- On-disk containment of translated addresses: a section answers for the larger of its two sizes by design.
- ElfParser.Parse: assumes a buffer below 2^63 bytes, the largest a byte vector can be.
- PeParser.Parse: assumes a buffer below 4 GiB, because above that size the thunk walk need not end.
- Address.AlignDownGreatest: stated for powers of two, which is what the source documents; the mask itself is modelled for every alignment.
- Address.Address.MinusAssign: excludes the most negative offset, whose negation is undefined in the source.
- Builder.BufferBuilder.MutateU32: writing outside the buffer is undefined in the source and excluded.
- ElfTheorems.ParseOfEncoded: leaves names and symbols open; `ElfTheorems.ImageOfEncoded` fixes them.
- PeWalk.WalkEndsIffSmall: images with an export directory are not used as witnesses, because above 4 GiB the export offsets wrap too.
