/** The file header and symbol layouts of elf_self.h and its class-dependent field
    selectors. Every selector picks the 64-bit layout when the class byte
    `e_ident[4]` is 2 and the 32-bit layout for every other value, so all headers,
    sections and symbols of one image are decoded with the class of its file header
    (System V ABI, chapter 4 "Object Files", sections "ELF Header" and "Symbol Table"). */
module ElfSelf {
  import opened Bytes
  import opened CStruct
  import opened MacElfStruct

  const EI_NIDENT: nat := 16
  /** Index of the class byte in `e_ident`. */
  const EI_CLASS: nat := 4

  /** The member names of `ElfHeader32` and `ElfHeader64`, in declaration order. */
  const HEADER_NAMES: seq<string> := [
    "e_ident", "e_type", "e_machine", "e_version", "e_entry", "e_phoff", "e_shoff",
    "e_flags", "e_ehsize", "e_phentsize", "e_phnum", "e_shentsize", "e_shnum", "e_shstrndx"]

  /** `ElfHeader32`: 52 bytes. */
  const HEADER32_TYPES: seq<CType> := [
    UCharArray(16), U16, U16, U32, U32, U32, U32, U32, U16, U16, U16, U16, U16, U16]
  const HEADER32_OFFSETS: seq<nat> := [0, 16, 18, 20, 24, 28, 32, 36, 40, 42, 44, 46, 48, 50]
  const ELF_HEADER32: Layout := Layout(HEADER32_TYPES, HEADER32_OFFSETS, 52)

  /** `ElfHeader64`: entry point, program and section header offsets widen to 8 bytes;
      64 bytes. */
  const HEADER64_TYPES: seq<CType> := [
    UCharArray(16), U16, U16, U32, U64, U64, U64, U32, U16, U16, U16, U16, U16, U16]
  const HEADER64_OFFSETS: seq<nat> := [0, 16, 18, 20, 24, 32, 40, 48, 52, 54, 56, 58, 60, 62]
  const ELF_HEADER64: Layout := Layout(HEADER64_TYPES, HEADER64_OFFSETS, 64)

  /** `Elf32_Sym`: 16 bytes. */
  const SYM32_NAMES: seq<string> := ["st_name", "st_value", "st_size", "st_info", "st_other", "st_shndx"]
  const SYM32_TYPES: seq<CType> := [U32, U32, U32, UChar, UChar, U16]
  const SYM32_OFFSETS: seq<nat> := [0, 4, 8, 12, 13, 14]
  const ELF32_SYM: Layout := Layout(SYM32_TYPES, SYM32_OFFSETS, 16)

  /** `Elf64_Sym`: the same members in a different order, value and size widened;
      24 bytes. */
  const SYM64_NAMES: seq<string> := ["st_name", "st_info", "st_other", "st_shndx", "st_value", "st_size"]
  const SYM64_TYPES: seq<CType> := [U32, UChar, UChar, U16, U64, U64]
  const SYM64_OFFSETS: seq<nat> := [0, 4, 5, 6, 8, 16]
  const ELF64_SYM: Layout := Layout(SYM64_TYPES, SYM64_OFFSETS, 24)

  /** `sizeof(SymHeader)`, the union of the two symbol records: the stride the lookup
      uses between symbol entries for files of either class. */
  const SYM_HEADER_SIZE: nat := 24

  datatype Class = C32 | C64

  /** `ELF_CLASS(header)`: byte 4 of the identification block, read through the 32-bit
      view of the header whatever the class (IdentFirstInBothHeaders shows why that is
      sound). */
  function ElfClass(image: seq<Byte>): (b: Byte)
    requires |image| > EI_CLASS
    ensures b == image[HEADER32_OFFSETS[0] + EI_CLASS] == image[HEADER64_OFFSETS[0] + EI_CLASS]
  {
    image[EI_CLASS]
  }

  /** `e_ident` is the first member of both header layouts, with the same type, and
      covers the class byte: reading it through the 32-bit view reads the same byte
      in a 64-bit header. */
  lemma IdentFirstInBothHeaders()
    ensures HEADER32_TYPES[0] == HEADER64_TYPES[0] == UCharArray(EI_NIDENT)
    ensures HEADER32_OFFSETS[0] == HEADER64_OFFSETS[0] == 0 && EI_CLASS < EI_NIDENT
  {
  }

  /** `IS_CLASS64(header)`. */
  predicate IsClass64(image: seq<Byte>)
    requires |image| > EI_CLASS
  {
    ElfClass(image) == 2
  }

  /** `IS_CLASS32(header)`: it never holds together with IS_CLASS64. */
  predicate IsClass32(image: seq<Byte>): (b: bool)
    requires |image| > EI_CLASS
    ensures b ==> !IsClass64(image)
  {
    ElfClass(image) == 1
  }

  /** The layout every selector uses: 64-bit exactly when IS_CLASS64 holds. A class
      byte that is neither 1 nor 2 selects the 32-bit layout. */
  function ClassOf(image: seq<Byte>): (c: Class)
    requires |image| > EI_CLASS
    ensures c == C64 <==> IsClass64(image)
    ensures c == C32 <==> (IsClass32(image) || ElfClass(image) !in {1, 2})
  {
    if IsClass64(image) then C64 else C32
  }

  function HeaderLayout(c: Class): Layout
  {
    if c == C64 then ELF_HEADER64 else ELF_HEADER32
  }

  function ShdrLayout(c: Class): Layout
  {
    if c == C64 then ELF64_SHDR else ELF32_SHDR
  }

  function SymLayout(c: Class): Layout
  {
    if c == C64 then ELF64_SYM else ELF32_SYM
  }

  /** `sizeof` the file header, the section header and the symbol record of a class
      (HeaderFieldPlaced, SectionFieldPlaced and SymFieldPlaced tie them to the
      layouts). */
  function HeaderSize(c: Class): nat
  {
    if c == C64 then 64 else 52
  }

  function ShdrSize(c: Class): nat
  {
    if c == C64 then 64 else 40
  }

  function SymSize(c: Class): nat
  {
    if c == C64 then 24 else 16
  }

  /** The image holds a whole file header of its class. */
  predicate HeaderInImage(image: seq<Byte>)
  {
    |image| > EI_CLASS && HeaderSize(ClassOf(image)) <= |image|
  }

  /** The file header fields the lookup reads, `ELF_FIELD(header, field)`. */
  datatype HeaderField = Shoff | Shentsize | Shnum | Shstrndx

  /** The member `e_ ## field` of both header layouts. */
  function HeaderMember(f: HeaderField): (k: nat)
    ensures k < |HEADER_NAMES|
  {
    match f
    case Shoff => 6
    case Shentsize => 11
    case Shnum => 12
    case Shstrndx => 13
  }

  function HeaderFieldName(f: HeaderField): string
  {
    match f
    case Shoff => "e_shoff"
    case Shentsize => "e_shentsize"
    case Shnum => "e_shnum"
    case Shstrndx => "e_shstrndx"
  }

  /** Where `e_ ## field` starts in the header of class c ... */
  function HeaderOffset(c: Class, f: HeaderField): nat
  {
    match f
    case Shoff => if c == C64 then 40 else 32
    case Shentsize => if c == C64 then 58 else 46
    case Shnum => if c == C64 then 60 else 48
    case Shstrndx => if c == C64 then 62 else 50
  }

  /** ... and how many bytes it has. */
  function HeaderWidth(c: Class, f: HeaderField): (w: nat)
    ensures 0 < w && EI_NIDENT <= HeaderOffset(c, f) && HeaderOffset(c, f) + w <= HeaderSize(c)
  {
    if f == Shoff then (if c == C64 then 8 else 4) else 2
  }

  /** `ELF_FIELD(header, field)`: the member read from the header of the image's class. */
  function ElfField(image: seq<Byte>, f: HeaderField): (v: nat)
    requires HeaderInImage(image)
  {
    var c := ClassOf(image);
    ReadLE(image, HeaderOffset(c, f), HeaderOffset(c, f) + HeaderWidth(c, f))
  }

  /** The section header fields, `SECTION_FIELD(ehdr, section, field)`. */
  datatype SectionField = ShName | ShType | ShFlags | ShAddr | ShOffset | ShSize
                        | ShLink | ShInfo | ShAddralign | ShEntsize

  /** The member `sh_ ## field`: both layouts list the ten members in the same order. */
  function ShdrMember(f: SectionField): (k: nat)
    ensures k < |SHDR_NAMES|
  {
    match f
    case ShName => 0
    case ShType => 1
    case ShFlags => 2
    case ShAddr => 3
    case ShOffset => 4
    case ShSize => 5
    case ShLink => 6
    case ShInfo => 7
    case ShAddralign => 8
    case ShEntsize => 9
  }

  /** A whole section header of the file's class starts at `pos` inside the image. */
  predicate ShdrInImage(image: seq<Byte>, pos: nat)
  {
    HeaderInImage(image) && pos + ShdrSize(ClassOf(image)) <= |image|
  }

  /** Where `sh_ ## field` starts in a section header of class c ... */
  function ShdrOffset(c: Class, f: SectionField): nat
  {
    if c == C32 then 4 * ShdrMember(f)
    else match f
      case ShName => 0
      case ShType => 4
      case ShFlags => 8
      case ShAddr => 16
      case ShOffset => 24
      case ShSize => 32
      case ShLink => 40
      case ShInfo => 44
      case ShAddralign => 48
      case ShEntsize => 56
  }

  /** ... and how many bytes it has: the `Elf64_Xword` and `Elf64_Addr`/`Elf64_Off`
      members are 8 bytes, everything else 4. */
  function ShdrWidth(c: Class, f: SectionField): (w: nat)
    ensures 0 < w && ShdrOffset(c, f) + w <= ShdrSize(c)
  {
    if c == C64 && f !in {ShName, ShType, ShLink, ShInfo} then 8 else 4
  }

  /** `SECTION_FIELD(*header, section, field)` for the section header at `pos`. */
  function SectionFieldAt(image: seq<Byte>, pos: nat, f: SectionField): (v: nat)
    requires ShdrInImage(image, pos)
  {
    var c := ClassOf(image);
    ReadLE(image, pos + ShdrOffset(c, f), pos + ShdrOffset(c, f) + ShdrWidth(c, f))
  }

  /** A section header copied out of the image (`SectionHeader symSection = *sectionHeader`). */
  datatype SectionHeader = SectionHeader(offset: nat, size: nat, entsize: nat)

  /** The members of the header at `pos` that the lookup reads from its copy of a
      symbol-table header: `sh_offset`, `sh_size` and `sh_entsize`, which are 32-bit
      words in 32-bit files and 64-bit words in 64-bit files. */
  function DecodeSection(image: seq<Byte>, pos: nat): (h: SectionHeader)
    requires ShdrInImage(image, pos)
    ensures var w := if ClassOf(image) == C64 then 8 else 4;
            h.offset < Pow256(w) && h.size < Pow256(w) && h.entsize < Pow256(w)
  {
    SectionHeader(SectionFieldAt(image, pos, ShOffset), SectionFieldAt(image, pos, ShSize),
                  SectionFieldAt(image, pos, ShEntsize))
  }

  /** The symbol fields, `SYM_FIELD(ehdr, symbol, field)`. */
  datatype SymbolField = StName | StValue | StSize | StInfo | StOther | StShndx

  /** The member `st_ ## field`: the two layouts order the members differently. */
  function SymMember(c: Class, f: SymbolField): (k: nat)
    ensures k < 6
  {
    match (c, f)
    case (C32, StName) => 0
    case (C32, StValue) => 1
    case (C32, StSize) => 2
    case (C32, StInfo) => 3
    case (C32, StOther) => 4
    case (C32, StShndx) => 5
    case (C64, StName) => 0
    case (C64, StInfo) => 1
    case (C64, StOther) => 2
    case (C64, StShndx) => 3
    case (C64, StValue) => 4
    case (C64, StSize) => 5
  }

  /** The member names of the symbol record of a class, in declaration order. */
  function SymNames(c: Class): seq<string>
  {
    if c == C64 then SYM64_NAMES else SYM32_NAMES
  }

  function SymFieldName(f: SymbolField): string
  {
    match f
    case StName => "st_name"
    case StValue => "st_value"
    case StSize => "st_size"
    case StInfo => "st_info"
    case StOther => "st_other"
    case StShndx => "st_shndx"
  }

  /** A whole symbol record of the file's class starts at `pos` inside the image. */
  predicate SymInImage(image: seq<Byte>, pos: nat)
  {
    HeaderInImage(image) && pos + SymSize(ClassOf(image)) <= |image|
  }

  /** Where `st_ ## field` starts in a symbol record of class c ... */
  function SymOffset(c: Class, f: SymbolField): nat
  {
    match f
    case StName => 0
    case StValue => if c == C64 then 8 else 4
    case StSize => if c == C64 then 16 else 8
    case StInfo => if c == C64 then 4 else 12
    case StOther => if c == C64 then 5 else 13
    case StShndx => if c == C64 then 6 else 14
  }

  /** ... and how many bytes it has. */
  function SymWidth(c: Class, f: SymbolField): (w: nat)
    ensures 0 < w && SymOffset(c, f) + w <= SymSize(c)
  {
    match f
    case StName => 4
    case StValue => if c == C64 then 8 else 4
    case StSize => if c == C64 then 8 else 4
    case StInfo => 1
    case StOther => 1
    case StShndx => 2
  }

  /** `SYM_FIELD(*header, *symHeader, field)` for the symbol record at `pos`. */
  function SymField(image: seq<Byte>, pos: nat, f: SymbolField): (v: nat)
    requires SymInImage(image, pos)
  {
    var c := ClassOf(image);
    ReadLE(image, pos + SymOffset(c, f), pos + SymOffset(c, f) + SymWidth(c, f))
  }

  /** `st_info` is an `unsigned char` in both layouts. */
  function SymInfo(image: seq<Byte>, pos: nat): (info: Byte)
    requires SymInImage(image, pos)
    ensures info == SymField(image, pos, StInfo)
  {
    var at := pos + SymOffset(ClassOf(image), StInfo);
    assert ReadLE(image, at, at + 1) == image[at] + 256 * ReadLE(image, at + 1, at + 1);
    image[at]
  }

  /** ELF_FIELD picks the member `e_ ## field` of the header (both classes declare the
      members in the same order), as the macro's token pasting selects it. */
  lemma HeaderSelectorNamed(f: HeaderField)
    ensures HEADER_NAMES[HeaderMember(f)] == HeaderFieldName(f)
  {
  }

  /** SECTION_FIELD picks the member `sh_ ## field`. */
  lemma SectionSelectorNamed(f: SectionField)
    ensures SHDR_NAMES[ShdrMember(f)] == ShdrFieldName(f)
  {
  }

  /** SYM_FIELD picks the member `st_ ## field`, although the two symbol layouts order
      their members differently. */
  lemma SymSelectorNamed(c: Class, f: SymbolField)
    ensures SymNames(c)[SymMember(c, f)] == SymFieldName(f)
  {
  }

  function ShdrFieldName(f: SectionField): string
  {
    match f
    case ShName => "sh_name"
    case ShType => "sh_type"
    case ShFlags => "sh_flags"
    case ShAddr => "sh_addr"
    case ShOffset => "sh_offset"
    case ShSize => "sh_size"
    case ShLink => "sh_link"
    case ShInfo => "sh_info"
    case ShAddralign => "sh_addralign"
    case ShEntsize => "sh_entsize"
  }

  /** Every member of `ElfHeader32` sits where the layout rule puts it. */
  lemma Header32Placed()
    ensures Placed(HEADER32_TYPES, HEADER32_OFFSETS)
  {
    var m, offs := HEADER32_TYPES, HEADER32_OFFSETS;
    forall k | 0 < k < 14 ensures offs[k] == AlignUp(offs[k - 1] + SizeOf(m[k - 1]), AlignOf(m[k])) {
      assert k in {1, 2, 3, 4, 5, 6, 7, 8, 9, 10, 11, 12, 13};
    }
  }

  /** `ElfHeader32` is aligned like its widest member. */
  lemma Header32Align()
    ensures MaxAlignFrom(HEADER32_TYPES, 0) == 4
  {
  }

  /** The offsets and size of `ElfHeader32` are the ones the compiler gives it. */
  lemma Header32Layout()
    ensures IsCLayout(ELF_HEADER32)
  {
    Header32Placed();
    Header32Align();
    assert EndOfMembers(ELF_HEADER32) == 52;
    IsCLayoutFrom(ELF_HEADER32, 4, 52);
  }

  /** Every member of `ElfHeader64` sits where the layout rule puts it. */
  lemma Header64Placed()
    ensures Placed(HEADER64_TYPES, HEADER64_OFFSETS)
  {
    var m, offs := HEADER64_TYPES, HEADER64_OFFSETS;
    forall k | 0 < k < 14 ensures offs[k] == AlignUp(offs[k - 1] + SizeOf(m[k - 1]), AlignOf(m[k])) {
      assert k in {1, 2, 3, 4, 5, 6, 7, 8, 9, 10, 11, 12, 13};
    }
  }

  /** `ElfHeader64` is aligned like its widest member. */
  lemma Header64Align()
    ensures MaxAlignFrom(HEADER64_TYPES, 0) == 8
  {
  }

  /** The offsets and size of `ElfHeader64` are the ones the compiler gives it. */
  lemma Header64Layout()
    ensures IsCLayout(ELF_HEADER64)
  {
    Header64Placed();
    Header64Align();
    assert EndOfMembers(ELF_HEADER64) == 64;
    IsCLayoutFrom(ELF_HEADER64, 8, 64);
  }

  /** Every member of `Elf32_Sym` sits where the layout rule puts it. */
  lemma Sym32Placed()
    ensures Placed(SYM32_TYPES, SYM32_OFFSETS)
  {
    var m, offs := SYM32_TYPES, SYM32_OFFSETS;
    forall k | 0 < k < 6 ensures offs[k] == AlignUp(offs[k - 1] + SizeOf(m[k - 1]), AlignOf(m[k])) {
      assert k in {1, 2, 3, 4, 5};
    }
  }

  /** `Elf32_Sym` is aligned like its widest member. */
  lemma Sym32Align()
    ensures MaxAlignFrom(SYM32_TYPES, 0) == 4
  {
  }

  /** The offsets and size of `Elf32_Sym` are the ones the compiler gives it. */
  lemma Sym32Layout()
    ensures IsCLayout(ELF32_SYM)
  {
    Sym32Placed();
    Sym32Align();
    assert EndOfMembers(ELF32_SYM) == 16;
    IsCLayoutFrom(ELF32_SYM, 4, 16);
  }

  /** Every member of `Elf64_Sym` sits where the layout rule puts it. */
  lemma Sym64Placed()
    ensures Placed(SYM64_TYPES, SYM64_OFFSETS)
  {
    var m, offs := SYM64_TYPES, SYM64_OFFSETS;
    forall k | 0 < k < 6 ensures offs[k] == AlignUp(offs[k - 1] + SizeOf(m[k - 1]), AlignOf(m[k])) {
      assert k in {1, 2, 3, 4, 5};
    }
  }

  /** `Elf64_Sym` is aligned like its widest member. */
  lemma Sym64Align()
    ensures MaxAlignFrom(SYM64_TYPES, 0) == 8
  {
  }

  /** The offsets and size of `Elf64_Sym` are the ones the compiler gives it. */
  lemma Sym64Layout()
    ensures IsCLayout(ELF64_SYM)
  {
    Sym64Placed();
    Sym64Align();
    assert EndOfMembers(ELF64_SYM) == 24;
    IsCLayoutFrom(ELF64_SYM, 8, 24);
  }

  /** The offset and width ELF_FIELD uses are those of the member `e_ ## field` in
      the C layout of the header of the class, and the member lies inside the header
      after the identification block. */
  lemma HeaderFieldPlaced(c: Class, f: HeaderField)
    ensures var l := HeaderLayout(c);
            var k := HeaderMember(f);
            && HeaderSize(c) == l.size
            && |l.types| == |l.offsets| == |HEADER_NAMES|
            && HeaderOffset(c, f) == l.offsets[k]
            && HeaderWidth(c, f) == SizeOf(l.types[k])
            && EI_NIDENT <= HeaderOffset(c, f)
            && HeaderOffset(c, f) + HeaderWidth(c, f) <= HeaderSize(c)
  {
  }

  /** The offset and width SECTION_FIELD uses are those of `sh_ ## field` in the C
      layout of the section header, and the member lies inside it. */
  lemma SectionFieldPlaced(c: Class, f: SectionField)
    ensures var l := ShdrLayout(c);
            var k := ShdrMember(f);
            && ShdrSize(c) == l.size
            && |l.types| == |l.offsets| == |SHDR_NAMES|
            && ShdrOffset(c, f) == l.offsets[k]
            && ShdrWidth(c, f) == SizeOf(l.types[k])
            && ShdrOffset(c, f) + ShdrWidth(c, f) <= ShdrSize(c)
  {
  }

  /** The offset and width SYM_FIELD uses are those of `st_ ## field` in the C layout
      of the symbol record of the class, and the member lies inside it. */
  lemma SymFieldPlaced(c: Class, f: SymbolField)
    ensures var l := SymLayout(c);
            var k := SymMember(c, f);
            && SymSize(c) == l.size
            && |l.types| == |l.offsets| == 6
            && SymOffset(c, f) == l.offsets[k]
            && SymWidth(c, f) == SizeOf(l.types[k])
            && SymOffset(c, f) + SymWidth(c, f) <= SymSize(c)
  {
  }

  /** `sizeof(SymHeader)` is 24: the union of the two records is as large as the
      larger, `Elf64_Sym`, and no record of either class is longer. */
  lemma SymHeaderSize(c: Class)
    ensures UnionSize(ELF32_SYM, ELF64_SYM) == SYM_HEADER_SIZE
    ensures SymLayout(c).size == SymSize(c) <= SYM_HEADER_SIZE
  {
    Sym32Align();
    Sym64Align();
  }

  /** `sizeof(SectionHeader)`, the union of `Elf32_Shdr` and `Elf64_Shdr`: the bytes
      `symSection = *sectionHeader` copies, in files of either class. */
  const SECTION_HEADER_SIZE: nat := 64

  /** The section header union is 64 bytes, and no section header of either class is
      longer. */
  lemma SectionHeaderSize(c: Class)
    ensures UnionSize(ELF32_SHDR, ELF64_SHDR) == SECTION_HEADER_SIZE
    ensures ShdrLayout(c).size == ShdrSize(c) <= SECTION_HEADER_SIZE
  {
    Shdr32Align();
    Shdr64Align();
  }

  /** A whole `SectionHeader` union, as the struct copy reads it, starts at `pos`
      inside the image. */
  predicate ShdrCopyInImage(image: seq<Byte>, pos: nat)
  {
    pos + SECTION_HEADER_SIZE <= |image|
  }

  /** ELF_FIELD reads `v` exactly when the bytes of `e_ ## field` in the header of the
      image's class are the little-endian encoding of `v`. */
  lemma ElfFieldBytes(image: seq<Byte>, f: HeaderField, v: nat)
    requires HeaderInImage(image)
    requires v < Pow256(HeaderWidth(ClassOf(image), f))
    ensures var c := ClassOf(image);
            var at, w := HeaderOffset(c, f), HeaderWidth(c, f);
            ElfField(image, f) == v <==> image[at..at + w] == EncodeLE(v, w)
  {
    var c := ClassOf(image);
    ReadIsEncoding(image, HeaderOffset(c, f), HeaderWidth(c, f), v);
  }

  /** SECTION_FIELD reads `v` exactly when the bytes of `sh_ ## field` in the section
      header at `pos` are the little-endian encoding of `v`. */
  lemma SectionFieldBytes(image: seq<Byte>, pos: nat, f: SectionField, v: nat)
    requires ShdrInImage(image, pos)
    requires v < Pow256(ShdrWidth(ClassOf(image), f))
    ensures var c := ClassOf(image);
            var at, w := pos + ShdrOffset(c, f), ShdrWidth(c, f);
            SectionFieldAt(image, pos, f) == v <==> image[at..at + w] == EncodeLE(v, w)
  {
    var c := ClassOf(image);
    var at, w := pos + ShdrOffset(c, f), ShdrWidth(c, f);
    assert SectionFieldAt(image, pos, f) == ReadLE(image, at, at + w);
    ReadIsEncoding(image, at, w, v);
  }

  /** SYM_FIELD reads `v` exactly when the bytes of `st_ ## field` in the symbol record
      at `pos` are the little-endian encoding of `v`. */
  lemma SymFieldBytes(image: seq<Byte>, pos: nat, f: SymbolField, v: nat)
    requires SymInImage(image, pos)
    requires v < Pow256(SymWidth(ClassOf(image), f))
    ensures var c := ClassOf(image);
            var at, w := pos + SymOffset(c, f), SymWidth(c, f);
            SymField(image, pos, f) == v <==> image[at..at + w] == EncodeLE(v, w)
  {
    var c := ClassOf(image);
    ReadIsEncoding(image, pos + SymOffset(c, f), SymWidth(c, f), v);
  }
}
