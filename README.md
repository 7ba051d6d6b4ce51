# ELF symbol lookup, modelled in Dafny

This project models the symbol lookup of `main.c`. Given the mapped bytes of an ELF
file and a symbol name, `findSymbolOffset` does four things:

- It reads the file header with the layout the class byte `e_ident[4]` selects.
- It finds the section-name string table through `e_shstrndx`.
- It walks every section header, at `e_shoff + e_shentsize * i`. The walk remembers the
  last `.strtab`, `.dynstr`, `.symtab` and `.dynsym`.
- It scans `.symtab` with `.strtab` for the first `STT_FUNC` symbol with the requested
  name and returns its `st_value`, or 0 when there is none.

When the walk reaches the last section without having seen a `.symtab`,
`findDynSymbolOffset` scans `.dynsym` with `.dynstr` instead. The model also covers the
`mmap` size rounding, the header, section and symbol layouts of `elf_self.h` and
`mac_elf_struct.h`, and their class-dependent field selectors.

The project has five modules:

- `Bytes` (bytes.dfy): the image is a `seq<Byte>`. It has little-endian field reads
  (`ReadLE`) with their inverse `EncodeLE`, and null-terminated strings (`CString`).
- `CStruct` (c_struct.dfy): the C struct layout rule. Each member goes at the next
  offset aligned to its own alignment, and the size is rounded up to the widest
  alignment. This is the independent reference that the layout tables are checked
  against.
- `MacElfStruct` (mac_elf_struct.dfy): the `STT_*`/`STB_*` codes, `ELF_ST_BIND`,
  `ELF_ST_TYPE` and the `Elf32_Shdr`/`Elf64_Shdr` layouts.
- `ElfSelf` (elf_self.dfy): the file header and symbol layouts, `ELF_CLASS`,
  `IS_CLASS32`/`IS_CLASS64`, and the selectors `ELF_FIELD`, `SECTION_FIELD` and
  `SYM_FIELD`.
- `Lookup` (lookup.dfy): the section walk, the symbol scan and the two C functions.
  - The pure functions `CatalogAfter`/`CatalogOf`, `LastWith`, `FirstMatch`, `Scan` and
    `SymbolAddress` specify the lookup.
  - The methods `VisitSection`, `WalkSections`, `ScanSymbolTable`,
    `FindDynSymbolOffset` and `FindSymbolOffset` keep the source's loops and early
    returns, and are proved to compute those functions.

A `const char *` into the mapping is an offset into the image. Section names are
classified by `RoleOf`, which applies the `strcmp` tests of the walk's if-else chain in
their order. The `requires` clauses exclude behaviour that is undefined in C, and in a
few places somewhat more (each is listed under "Left out"):

- a read outside the file, and a header or symbol record that does not lie wholly in
  the file; for a `.symtab` or `.dynsym` section, the whole 64-byte `SectionHeader`
  union that the walk copies, in files of either class. The mapping is rounded up to
  whole pages, so some of these reads are defined in C (see "Left out");
- a name without a terminator inside the file;
- `shnum == 0`;
- a `.symtab` without a `.strtab`, or a fallback without `.dynsym`/`.dynstr` (uninitialised
  locals);
- `sh_entsize == 0`.

## Model

| member | source | states |
|---|---|---|
| Bytes.ReadLE | elf_self.h:156-159 | reading an n-byte unsigned member gives a value below 256^n |
| Bytes.ReadIsEncoding | elf_self.h:156-159 | a field of n bytes reads v exactly when its bytes are the little-endian encoding of v |
| Bytes.ReadEncode | elf_self.h:156-159 | bytes that encode v read back as v |
| Bytes.EncodeRead | elf_self.h:156-159 | encoding the value an n-byte field holds gives the field's bytes back |
| Bytes.CString | main.c:61 | the string a `const char *` into the mapping denotes ends at the first 0 at or after it, which lies inside the image, and contains no 0 |
| Bytes.CStringEnds | main.c:61 | the string is exactly the bytes from the pointer up to its terminator |
| Bytes.CStringStored | main.c:62-69 | any C string stored at an offset and followed by 0 is exactly the string `strcmp` compares there |
| Bytes.CStringEquals | main.c:91 | `strcmp(t, p) == 0` for a C string t exactly when the bytes at p are t followed by a 0 |
| CStruct.LayoutUnique | elf_self.h:33-66 | the C layout rule leaves no choice: two layouts of the same member types have the same offsets and size |
| CStruct.MembersInside | elf_self.h:105-120 | members of a C layout do not overlap and end inside the struct |
| CStruct.UnionSize | elf_self.h:122-125 | `sizeof` a union holds either member, is a multiple of the larger alignment and pads less than one alignment unit past the larger member |
| MacElfStruct.ElfStBind | mac_elf_struct.h:83 | `x >> 4` on an info byte is below 16 |
| MacElfStruct.ElfStType | mac_elf_struct.h:84 | `x & 0xf` is below 16 |
| MacElfStruct.NibbleArith | mac_elf_struct.h:83-84 | the shift is division by 16 and the mask is remainder by 16 |
| MacElfStruct.InfoSplit | mac_elf_struct.h:83-84 | bind * 16 + type rebuilds every info byte: the split loses nothing |
| MacElfStruct.InfoPack | mac_elf_struct.h:83-88 | splitting a packed byte gives back the binding and the type |
| MacElfStruct.FuncAnyBinding | mac_elf_struct.h:73-84 | a local, a global and a weak function symbol all have type STT_FUNC, and the binding nibble keeps the binding, so the function test accepts every binding |
| MacElfStruct.FuncTypeOnly | mac_elf_struct.h:76-84 | a symbol is a function exactly when the low nibble is 2, and STT_FUNC differs from every other type code |
| MacElfStruct.Shdr32Placed | mac_elf_struct.h:112-123 | every `Elf32_Shdr` offset is the one the layout rule gives |
| MacElfStruct.Shdr32Align | mac_elf_struct.h:112-123 | `Elf32_Shdr` is aligned to 4 |
| MacElfStruct.Shdr32Layout | mac_elf_struct.h:112-123 | `Elf32_Shdr` is the C layout of ten 4-byte words, 40 bytes |
| MacElfStruct.Shdr64Placed | mac_elf_struct.h:124-135 | every `Elf64_Shdr` offset is the one the layout rule gives |
| MacElfStruct.Shdr64Align | mac_elf_struct.h:124-135 | `Elf64_Shdr` is aligned to 8 |
| MacElfStruct.Shdr64Layout | mac_elf_struct.h:124-135 | `Elf64_Shdr` is the C layout of its members, 64 bytes |
| ElfSelf.ElfClass | elf_self.h:150-151 | ELF_CLASS reads byte 4 of `e_ident` through the 32-bit view, and that is the same byte as byte 4 of `e_ident` in the 64-bit view |
| ElfSelf.IdentFirstInBothHeaders | elf_self.h:149-151 | reading the class through the 32-bit view reads the same byte in both classes: `e_ident` is the first member of both header layouts, an array of 16 bytes that covers byte 4 |
| ElfSelf.IsClass32 | elf_self.h:152 | IS_CLASS32 never holds together with IS_CLASS64 |
| ElfSelf.IsClass64 | elf_self.h:153 | IS_CLASS64 is the test every selector makes: the class byte is 2 (ClassOf states which layout it selects) |
| ElfSelf.ClassOf | elf_self.h:150-159 | the 64-bit layout is chosen exactly when `e_ident[4]` is 2; class byte 1 and every invalid byte select the 32-bit layout |
| ElfSelf.HeaderWidth | elf_self.h:33-66 | each header field the lookup reads is non-empty and lies after `e_ident`, inside the header of its class |
| ElfSelf.ElfField | elf_self.h:156-159 | ELF_FIELD reads the member `e_ ## field` of the header layout of the image's class (its place is stated by HeaderFieldPlaced, its bytes by ElfFieldBytes) |
| ElfSelf.ShdrWidth | mac_elf_struct.h:112-135 | each section header field lies inside the section header of its class |
| ElfSelf.SectionFieldAt | elf_self.h:168-171 | SECTION_FIELD reads the member `sh_ ## field` of the section header at the position, in the layout of the image's class (SectionFieldPlaced, SectionFieldBytes) |
| ElfSelf.DecodeSection | main.c:66-70 | the copy `symSection = *sectionHeader` keeps `sh_offset`, `sh_size` and `sh_entsize`, 32-bit words in 32-bit files and 64-bit words in 64-bit files |
| ElfSelf.SymWidth | elf_self.h:105-120 | each symbol field lies inside the symbol record of its class |
| ElfSelf.SymField | elf_self.h:174-177 | SYM_FIELD reads the member `st_ ## field` of the symbol record at the position, in the layout of the image's class (SymFieldPlaced, SymFieldBytes) |
| ElfSelf.SymInfo | elf_self.h:174-177 | the `unsigned char info` the scan reads is the `st_info` field of the record |
| ElfSelf.HeaderSelectorNamed | elf_self.h:156-159 | ELF_FIELD selects the member `e_ ## field` |
| ElfSelf.SectionSelectorNamed | elf_self.h:168-171 | SECTION_FIELD selects the member `sh_ ## field` |
| ElfSelf.SymSelectorNamed | elf_self.h:174-177 | SYM_FIELD selects the member `st_ ## field` in both symbol layouts, although they order the members differently |
| ElfSelf.Header32Placed | elf_self.h:33-48 | every `ElfHeader32` offset is the one the layout rule gives |
| ElfSelf.Header32Align | elf_self.h:33-48 | `ElfHeader32` is aligned to 4 |
| ElfSelf.Header32Layout | elf_self.h:33-48 | `ElfHeader32` is the C layout of its members, 52 bytes, with e_shoff at 32, e_shentsize at 46, e_shnum at 48 and e_shstrndx at 50 |
| ElfSelf.Header64Placed | elf_self.h:50-66 | every `ElfHeader64` offset is the one the layout rule gives |
| ElfSelf.Header64Align | elf_self.h:50-66 | `ElfHeader64` is aligned to 8 |
| ElfSelf.Header64Layout | elf_self.h:50-66 | `ElfHeader64` is the C layout of its members, 64 bytes, with e_shoff at 40, e_shentsize at 58, e_shnum at 60 and e_shstrndx at 62 |
| ElfSelf.Sym32Placed | elf_self.h:105-112 | every `Elf32_Sym` offset is the one the layout rule gives |
| ElfSelf.Sym32Align | elf_self.h:105-112 | `Elf32_Sym` is aligned to 4 |
| ElfSelf.Sym32Layout | elf_self.h:105-112 | `Elf32_Sym` is the C layout of its members, 16 bytes |
| ElfSelf.Sym64Placed | elf_self.h:113-120 | every `Elf64_Sym` offset is the one the layout rule gives |
| ElfSelf.Sym64Align | elf_self.h:113-120 | `Elf64_Sym` is aligned to 8 |
| ElfSelf.Sym64Layout | elf_self.h:113-120 | `Elf64_Sym` is the C layout of its members, 24 bytes |
| ElfSelf.HeaderFieldPlaced | elf_self.h:156-159 | the offset and width ELF_FIELD reads are those of `e_ ## field` in the header layout of the class |
| ElfSelf.SectionFieldPlaced | elf_self.h:168-171 | the offset and width SECTION_FIELD reads are those of `sh_ ## field` in the section header layout of the class |
| ElfSelf.SymFieldPlaced | elf_self.h:174-177 | the offset and width SYM_FIELD reads are those of `st_ ## field` in the symbol layout of the class |
| ElfSelf.SectionHeaderSize | elf_self.h:100-103 | `sizeof(SectionHeader)` is 64, the size of `Elf64_Shdr`, and no section header of either class is longer: `symSection = *sectionHeader` copies 64 bytes even in a 32-bit file |
| ElfSelf.SymHeaderSize | elf_self.h:122-125 | `sizeof(SymHeader)` is 24, the size of the larger record, and no record of either class is longer |
| ElfSelf.ElfFieldBytes | elf_self.h:156-159 | ELF_FIELD reads v exactly when the bytes of the member are v in little-endian order |
| ElfSelf.SectionFieldBytes | elf_self.h:168-171 | SECTION_FIELD reads v exactly when the bytes of the member are v in little-endian order |
| ElfSelf.SymFieldBytes | elf_self.h:174-177 | SYM_FIELD reads v exactly when the bytes of the member are v in little-endian order |
| Lookup.RoleNamesDistinct | main.c:62-69 | the four names are C strings and pairwise different |
| Lookup.RoleOf | main.c:62-71 | the if-else chain: a name selects `strtab`, `dynstr`, `symSection` or `dynsymSection` exactly when it is `.strtab`, `.dynstr`, `.symtab` or `.dynsym`, and any other name selects none |
| Lookup.SectionHeaderPos | main.c:59-60 | section header i is read at `shoff + shentsize * i` |
| Lookup.ShstrtabPos | main.c:45-47 | the section-name table's header, read at `shoff + shentsize * shstrndx`, is the header the walk reads as section `shstrndx` |
| Lookup.Shstrtab | main.c:51 | `shstrtab` is the `sh_offset` of the section-name table's header |
| Lookup.SectionName | main.c:61 | the name of section i is the string at `shstrtab + sh_name`: the bytes up to a 0 inside the image, none of them 0 |
| Lookup.CatalogAfter | main.c:57-71 | the four variables after the walk has visited sections 0 .. n - 1, one if-else pass per section (CatalogAfterTable, CatalogLastWrite) |
| Lookup.CatalogAfterTable | main.c:58-71 | walking the image's sections gives what the if-else chain leaves after visiting the table of sections in order |
| Lookup.Record | main.c:62-71 | one pass of the if-else chain changes at most the variable the section's name selects: a string table's offset or a symbol table's header; the other three stay as they were |
| Lookup.LastWithFound | main.c:62-71 | the section LastWith returns has the role |
| Lookup.LastWithLatest | main.c:62-71 | no later section has the role |
| Lookup.LastWithAbsent | main.c:62-71 | when LastWith finds nothing, no section has the role |
| Lookup.CatalogLastWrite | main.c:62-71 | last write wins: after the walk each variable holds the last section with its name, and stays unassigned when there is none |
| Lookup.SymbolAddress | main.c:22-104 | the `.symtab` scan with `.strtab` when the walk saw a `.symtab`, the `.dynsym` scan with `.dynstr` otherwise (LookupUsesLastTables) |
| Lookup.LookupUsesLastTables | main.c:58-99 | with a `.symtab` the lookup scans the last one with the last `.strtab`; without one it scans the last `.dynsym` with the last `.dynstr` |
| Lookup.SymbolPos | main.c:87 | symbol entry i is read at `off + i * stride` |
| Lookup.ToCInt | main.c:84 | the `int` conversion lies in the 32-bit range, agrees with its operand modulo 2^32, and keeps every value below 2^31 |
| Lookup.EntryCount | main.c:84-86 | the loop runs at most size / entsize times, and exactly that often when the quotient fits in an `int` |
| Lookup.IsFunction | main.c:88-91 | `ELF_ST_TYPE(info) == STT_FUNC`: the low nibble of the entry's `st_info` is 2 |
| Lookup.Matches | main.c:88-91 | the entry is a function and `strcmp(symbol, strtab + st_name) == 0` (MatchesStored states it on bytes) |
| Lookup.MatchesStored | main.c:88-91 | for a C-string `symbol`, entry i matches exactly when it is a function and the bytes at `strtab + st_name` are `symbol` followed by a 0 |
| Lookup.FirstMatch | main.c:86-99 | the first match, when there is one, lies in the scanned range |
| Lookup.FirstMatchIsFirst | main.c:86-99 | the entry FirstMatch returns is a function named `symbol`; every earlier entry is not |
| Lookup.AddrOf | main.c:93-94 | the `>= 0 ? value : -1` guard always holds, so the address is `st_value` itself |
| Lookup.Scan | main.c:81-103 | the value of the first function symbol named `symbol` in the table, or 0 (ScanNotFound, ScanFindsFirst) |
| Lookup.ScanNotFound | main.c:100-103 | when no entry matches, the result is 0 |
| Lookup.ScanFindsFirst | main.c:86-97 | when entry j is the first match, the result is its `st_value` |
| Lookup.ClassStrideReadsRecords | elf_self.h:105-120 | stepping by the record size of the class, entry i is record i of the table and lies inside it |
| Lookup.FixedStrideOn32 | main.c:87 | in a 32-bit table the fixed 24-byte stride reads entry i 8 * i bytes past record i |
| Lookup.FixedStrideMisreads32 | main.c:87 | in a 32-bit table of three records the second read straddles two records and the third starts past the table |
| Lookup.FixedStrideOn64 | main.c:87 | in a 64-bit table the fixed stride reads exactly the records |
| Lookup.ScanSymbolTable | main.c:81-99 | the loop returns the value of the first function symbol with the name, or 0 |
| Lookup.FindDynSymbolOffset | main.c:116-139 | `findDynSymbolOffset` returns the scan of the dynamic table with `dynstr` |
| Lookup.VisitSection | main.c:59-71 | one pass of the walk applies the if-else chain to section i; `getSymSection` is set exactly when `.symtab` has been seen |
| Lookup.WalkSections | main.c:57-78 | the walk visits every section; it falls back on the last section exactly when no `.symtab` was seen |
| Lookup.FindSymbolOffset | main.c:22-104 | `findSymbolOffset` returns SymbolAddress: the `.symtab` scan, or the `.dynsym` scan when the file has no `.symtab` |
| Lookup.PagesFor | main.c:35 | the page count is the fewest pages that hold the file |
| Lookup.MmapSize | main.c:35 | the mapping size is the least multiple of the page size that is at least `st_size` |

## Left out

- File and OS calls are not modelled: `fopen`, `fseek`, `fstat`, `getpagesize`, `mmap`, `munmap` and `fclose`. The image is the already-mapped file, and the page size and `st_size` are parameters.
- The `fd == NULL` test and the failing-`fstat` path are not modelled. Both return 0 before any lookup.
- The `mmapPtr == NULL` test is not modelled. `mmap` reports failure with `MAP_FAILED`, so that test never catches a failure.
- `printf` diagnostics are not modelled.
- `getElfSymbolAddress` and `main` are not modelled. `getElfSymbolAddress` opens the path it is given, returns -1 when `fopen` fails, prints, and returns the lookup's result; it closes the file only when that result is not 0. `main` calls it with a fixed path and symbol.
- Undefined behaviour is excluded by `requires` and not modelled: a read outside the mapping (the model asks for more: reads inside the file, see below), a string without a terminator, `shnum == 0`, uninitialised `strtab`/`dynstr`/`dynsymSection`, and `sh_entsize == 0`.
- Lookup.LookupSafe: it requires a `.strtab` whenever the file has a `.symtab`, but the C code reads `strtab` only inside the scan loop. A `.symtab` whose `sh_size / sh_entsize` is 0 in a file without `.strtab` returns 0 without undefined behaviour, and the model does not cover that file.
- Bytes.Terminated: names must be terminated inside the file. `strcmp` stops at the first byte that differs, and the mapping is rounded up to whole pages and filled with zeros, so the C code also works on some names that run to the end of the file. The model does not cover those files.
- ElfSelf.ShdrInImage, ElfSelf.SymInImage: a whole section header or symbol record must lie in the file, while the code reads only `sh_name`, `sh_offset`, `sh_size`, `sh_entsize` and `st_name`, `st_info`, `st_value`. A file whose last record is cut short after the members read is not covered.
- ElfSelf.HeaderInImage, ElfSelf.ShdrInImage, ElfSelf.SymInImage, ElfSelf.ShdrCopyInImage: reads are bounded by the file, not by the mapping. The mapping is `st_size` rounded up to whole pages, and `mmap` fills the tail of the last page with zeros, so the C code can also read a header, record or `SectionHeader` copy that runs past the end of the file into that tail. For example, a 32-bit file of 92 bytes whose `.symtab` header is its last 40 bytes has its 64-byte copy read 24 zero bytes. The model does not cover those files.
- The copy of a symbol table's header (`symSection = *sectionHeader`) keeps only `sh_offset`, `sh_size` and `sh_entsize`, the members the scan reads.
- Lookup.WalkSections: the early return from inside the loop is a `fellBack` flag. FindSymbolOffset then calls `findDynSymbolOffset`, so the result is the same as the source's return.
- Lookup.SectionHeaderPos, Lookup.ShstrtabPos: `shentsize * i` and `shentsize * shstrndx` are `int` products in C (the 16-bit fields are promoted to `int`), which overflow once they exceed 2^31 - 1, for example `65535 * i` once i exceeds 32768. The model multiplies unbounded integers. `i * sizeof(SymHeader)` in `SymbolPos` is a `size_t` product and cannot wrap for any `int` i; `arrayLen` is modelled with its 32-bit conversion.
- Big-endian files and byte swapping are not modelled. Fields are read little-endian, as on the hosts the code targets.
- Program headers, dynamic entries, their selectors and the `PT_*`, `DT_*` and `ET_*` constants are not modelled. The lookup never uses them.
- The `ELF32_`/`ELF64_` forms of `ST_BIND` and `ST_TYPE` have no members of their own, because they expand to the generic macros. The repeated `ELF_ST_TYPE` of `elf_self.h` (`info & 0x0F`) is the same function on bytes.

## Findings

| source | as written | input that shows it | evidently intended | confidence | as-written member | corrected member |
|---|---|---|---|---|---|---|
| main.c:87, main.c:128 | symbol entry i is read at `off + i * sizeof(SymHeader)`, 24 bytes apart for either class | a 32-bit `.symtab` with sh_offset 0x100, sh_size 48, sh_entsize 16 (three `Elf32_Sym` records): entry 1 is read at 0x118, 8 bytes into record 1, and entry 2 at 0x130, past the end of the table | entries one `Elf32_Sym` (16 bytes) apart in 32-bit files, so that entry i is record i | not executed | Lookup.FixedStrideMisreads32 | Lookup.ClassStrideReadsRecords |

`Scan` and `ScanSymbolTable` take the stride as a parameter. The lookup as written passes
`SYM_HEADER_SIZE`. The corrected scan is the same method called with the record size of
the class (`SymSize`), and ClassStrideReadsRecords proves that it reads exactly the
table's records. FixedStrideOn64 shows that both strides agree for 64-bit files.
