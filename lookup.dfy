/** The symbol lookup of main.c: `findSymbolOffset` walks the section header table,
    remembers the string tables and symbol tables by name, and scans `.symtab` (or,
    when the file has none, `.dynsym` through `findDynSymbolOffset`) for the first
    function symbol with the requested name, returning its value or 0.

    The mapped file is the byte sequence `image`; a `const char *` into it is an
    offset. The lookup is specified by pure functions (CatalogOf, FirstMatch, Scan,
    SymbolAddress) and the two methods, which keep the source's loops, are proved to compute
    them. */
module Lookup {
  import opened Bytes
  import opened MacElfStruct
  import opened ElfSelf

  datatype Option<T> = None | Some(value: T)

  /** The section names the walk compares against: ".strtab", ".dynstr", ".symtab"
      and ".dynsym" in ASCII. */
  const STRTAB: seq<Byte> := [0x2E, 0x73, 0x74, 0x72, 0x74, 0x61, 0x62]
  const DYNSTR: seq<Byte> := [0x2E, 0x64, 0x79, 0x6E, 0x73, 0x74, 0x72]
  const SYMTAB: seq<Byte> := [0x2E, 0x73, 0x79, 0x6D, 0x74, 0x61, 0x62]
  const DYNSYM: seq<Byte> := [0x2E, 0x64, 0x79, 0x6E, 0x73, 0x79, 0x6D]

  /** The four names are C strings and pairwise different, so at most one branch of the
      walk's if-else chain can apply to a section. */
  lemma RoleNamesDistinct()
    ensures IsCString(STRTAB) && IsCString(DYNSTR) && IsCString(SYMTAB) && IsCString(DYNSYM)
    ensures STRTAB != DYNSTR && STRTAB != SYMTAB && STRTAB != DYNSYM
    ensures DYNSTR != SYMTAB && DYNSTR != DYNSYM && SYMTAB != DYNSYM
  {
    assert STRTAB[1] != DYNSTR[1] && STRTAB[2] != SYMTAB[2] && STRTAB[1] != DYNSYM[1];
    assert DYNSTR[1] != SYMTAB[1] && DYNSTR[5] != DYNSYM[5] && SYMTAB[1] != DYNSYM[1];
  }

  /** Which of the walk's four variables a section is remembered in, if any. */
  datatype Role = StrTab | DynStr | SymTab | DynSym | Unlisted

  /** The tests of the walk's if-else chain, in their order: each role is selected by
      its own name and by no other, and every other name selects no variable. */
  function RoleOf(name: seq<Byte>): (r: Role)
    ensures r == StrTab <==> name == STRTAB
    ensures r == DynStr <==> name == DYNSTR
    ensures r == SymTab <==> name == SYMTAB
    ensures r == DynSym <==> name == DYNSYM
    ensures r == Unlisted <==> name !in {STRTAB, DYNSTR, SYMTAB, DYNSYM}
  {
    RoleNamesDistinct();
    if name == STRTAB then StrTab
    else if name == DYNSTR then DynStr
    else if name == SYMTAB then SymTab
    else if name == DYNSYM then DynSym
    else Unlisted
  }

  // ---------------------------------------------------------------- the section walk

  /** `ELF_FIELD(*header, shnum)`. */
  function SectionCount(image: seq<Byte>): nat
    requires HeaderInImage(image)
  {
    ElfField(image, Shnum)
  }

  /** Where section header i starts: `shoff + shentsize * i`. */
  function SectionHeaderPos(image: seq<Byte>, i: nat): nat
    requires HeaderInImage(image)
  {
    ElementPos(ElfField(image, Shoff), ElfField(image, Shentsize), i)
  }

  /** Where the header of the section-name string table starts,
      `shoff + shentsize * shstrndx`: the header the walk visits as section `shstrndx`. */
  function ShstrtabPos(image: seq<Byte>): (p: nat)
    requires HeaderInImage(image)
    ensures p == SectionHeaderPos(image, ElfField(image, Shstrndx))
  {
    ElementPos(ElfField(image, Shoff), ElfField(image, Shentsize), ElfField(image, Shstrndx))
  }

  /** `shstrtab`: the file offset of the section-name string table. */
  function Shstrtab(image: seq<Byte>): nat
    requires HeaderInImage(image) && ShdrInImage(image, ShstrtabPos(image))
  {
    SectionFieldAt(image, ShstrtabPos(image), ShOffset)
  }

  /** Section i can be visited: its header lies in the image, its name, read from
      the section-name string table, ends inside the image, and when the name selects
      a symbol table, the whole header union the walk copies lies in the image. */
  ghost predicate SectionSafe(image: seq<Byte>, i: nat)
  {
    && HeaderInImage(image)
    && ShdrInImage(image, ShstrtabPos(image))
    && ShdrInImage(image, SectionHeaderPos(image, i))
    && Terminated(image, Shstrtab(image) + SectionFieldAt(image, SectionHeaderPos(image, i), ShName))
    && var role := RoleOf(CString(image, Shstrtab(image) + SectionFieldAt(image, SectionHeaderPos(image, i), ShName)));
       (role == SymTab || role == DynSym) ==> ShdrCopyInImage(image, SectionHeaderPos(image, i))
  }

  /** Sections 0 .. n - 1 can be visited. */
  ghost predicate SectionsSafe(image: seq<Byte>, n: nat)
  {
    forall j :: 0 <= j < n ==> SectionSafe(image, j)
  }

  /** `shstrtab + SECTION_FIELD(*header, *sectionHeader, name)`. */
  function SectionName(image: seq<Byte>, i: nat): (name: seq<Byte>)
    requires SectionSafe(image, i)
    ensures var at := Shstrtab(image) + SectionFieldAt(image, SectionHeaderPos(image, i), ShName);
            && at + |name| < |image| && image[at + |name|] == 0
            && image[at..at + |name|] == name && IsCString(name)
  {
    CStringEnds(image, Shstrtab(image) + SectionFieldAt(image, SectionHeaderPos(image, i), ShName));
    CString(image, Shstrtab(image) + SectionFieldAt(image, SectionHeaderPos(image, i), ShName))
  }

  /** Section i as the walk sees it: the role its name selects and a copy of its
      header (`*sectionHeader`). */
  datatype SectionView = SectionView(role: Role, header: SectionHeader)

  function ViewOf(image: seq<Byte>, i: nat): SectionView
    requires SectionSafe(image, i)
  {
    SectionView(RoleOf(SectionName(image, i)), DecodeSection(image, SectionHeaderPos(image, i)))
  }

  /** Sections 0 .. n - 1 as the walk sees them. */
  function SectionTable(image: seq<Byte>, n: nat): (t: seq<SectionView>)
    requires SectionsSafe(image, n)
    ensures |t| == n
  {
    seq(n, j requires 0 <= j < n && SectionsSafe(image, n) => ViewOf(image, j))
  }

  /** What the walk reads at section i, through `pos` and `shstrtab`, is the view of
      section i. */
  lemma ReadView(image: seq<Byte>, i: nat, pos: nat, shstrtab: nat)
    requires SectionSafe(image, i) && pos == SectionHeaderPos(image, i) && shstrtab == Shstrtab(image)
    ensures ShdrInImage(image, pos) && Terminated(image, shstrtab + SectionFieldAt(image, pos, ShName))
    ensures RoleOf(CString(image, shstrtab + SectionFieldAt(image, pos, ShName))) == ViewOf(image, i).role
    ensures DecodeSection(image, pos) == ViewOf(image, i).header
    ensures SectionFieldAt(image, pos, ShOffset) == ViewOf(image, i).header.offset
  {
  }

  /** The catalog after the walk has visited sections 0 .. n - 1 of the image. */
  function CatalogAfter(image: seq<Byte>, n: nat): Catalog
    requires SectionsSafe(image, n)
  {
    if n == 0 then NO_SECTIONS else Record(CatalogAfter(image, n - 1), ViewOf(image, n - 1))
  }

  /** The walk over the image is the walk over its table of sections. */
  lemma {:induction false} CatalogAfterTable(image: seq<Byte>, n: nat)
    requires SectionsSafe(image, n)
    ensures CatalogAfter(image, n) == CatalogOf(SectionTable(image, n))
  {
    if n > 0 {
      CatalogAfterTable(image, n - 1);
      assert SectionTable(image, n)[..n - 1] == SectionTable(image, n - 1);
    }
  }

  /** What the walk has remembered: the variables `strtab`, `dynstr`, `symSection` and
      `dynsymSection`, None while a variable has not been assigned. */
  datatype Catalog = Catalog(
    strtab: Option<nat>, dynstr: Option<nat>,
    symSection: Option<SectionHeader>, dynsymSection: Option<SectionHeader>)

  const NO_SECTIONS: Catalog := Catalog(None, None, None, None)

  /** One pass of the walk's if-else chain over a section: the string tables are
      remembered by their offset, the symbol tables by a copy of their header. */
  function Record(cat: Catalog, s: SectionView): (r: Catalog)
    ensures r.strtab == (if s.role == StrTab then Some(s.header.offset) else cat.strtab)
    ensures r.dynstr == (if s.role == DynStr then Some(s.header.offset) else cat.dynstr)
    ensures r.symSection == (if s.role == SymTab then Some(s.header) else cat.symSection)
    ensures r.dynsymSection == (if s.role == DynSym then Some(s.header) else cat.dynsymSection)
  {
    match s.role
    case StrTab => cat.(strtab := Some(s.header.offset))
    case DynStr => cat.(dynstr := Some(s.header.offset))
    case SymTab => cat.(symSection := Some(s.header))
    case DynSym => cat.(dynsymSection := Some(s.header))
    case Unlisted => cat
  }

  /** The catalog after the walk has visited the sections of `t` in order. */
  function CatalogOf(t: seq<SectionView>): Catalog
  {
    if t == [] then NO_SECTIONS else Record(CatalogOf(t[..|t| - 1]), t[|t| - 1])
  }

  /** The index of the last section of `t` with the given role (characterised by
      LastWithFound, LastWithLatest and LastWithAbsent). */
  function LastWith(t: seq<SectionView>, role: Role): (r: Option<nat>)
    ensures r.Some? ==> r.value < |t|
  {
    if t == [] then None
    else if t[|t| - 1].role == role then Some(|t| - 1)
    else LastWith(t[..|t| - 1], role)
  }

  /** The section LastWith returns has the role ... */
  lemma {:induction false} LastWithFound(t: seq<SectionView>, role: Role)
    ensures var r := LastWith(t, role);
            r.Some? ==> t[r.value].role == role
  {
    if t != [] && t[|t| - 1].role != role {
      LastWithFound(t[..|t| - 1], role);
    }
  }

  /** ... no later section has it ... */
  lemma {:induction false} LastWithLatest(t: seq<SectionView>, role: Role)
    ensures var r := LastWith(t, role);
            r.Some? ==> forall j :: r.value < j < |t| ==> t[j].role != role
  {
    if t != [] && t[|t| - 1].role != role {
      LastWithLatest(t[..|t| - 1], role);
    }
  }

  /** ... and when LastWith finds nothing, no section has the role. */
  lemma {:induction false} LastWithAbsent(t: seq<SectionView>, role: Role)
    ensures LastWith(t, role).None? ==> forall j :: 0 <= j < |t| ==> t[j].role != role
  {
    if t != [] && t[|t| - 1].role != role {
      LastWithAbsent(t[..|t| - 1], role);
    }
  }

  /** The offset of the last section with the role, if there is one. */
  function LastOffset(t: seq<SectionView>, role: Role): Option<nat>
  {
    match LastWith(t, role)
    case None => None
    case Some(i) => Some(t[i].header.offset)
  }

  /** The header of the last section with the role, if there is one. */
  function LastHeader(t: seq<SectionView>, role: Role): Option<SectionHeader>
  {
    match LastWith(t, role)
    case None => None
    case Some(i) => Some(t[i].header)
  }

  /** Last write wins: after the walk, each variable describes the LAST section whose
      name selects it, and stays unassigned when no section's name does. */
  lemma {:induction false} CatalogLastWrite(t: seq<SectionView>)
    ensures CatalogOf(t).strtab == LastOffset(t, StrTab)
    ensures CatalogOf(t).dynstr == LastOffset(t, DynStr)
    ensures CatalogOf(t).symSection == LastHeader(t, SymTab)
    ensures CatalogOf(t).dynsymSection == LastHeader(t, DynSym)
  {
    if t != [] {
      var front := t[..|t| - 1];
      CatalogLastWrite(front);
      forall j | 0 <= j < |front| ensures front[j] == t[j] {}
    }
  }

  // ---------------------------------------------------------------- the symbol scan

  /** Where entry i of a symbol table starts when entries are `stride` bytes apart
      (`mmapPtr + off + i * sizeof(SymHeader)` as written, with stride 24). */
  function SymbolPos(table: SectionHeader, stride: nat, i: nat): nat
  {
    ElementPos(table.offset, stride, i)
  }

  const TWO_31: int := 0x8000_0000
  const TWO_32: int := 0x1_0000_0000

  /** The conversion of an unsigned quotient to `int` (32-bit two's complement, the
      value modulo 2^32 read as signed). */
  function ToCInt(x: nat): (r: int)
    ensures -TWO_31 <= r < TWO_31
    ensures (x - r) % TWO_32 == 0
    ensures x < TWO_31 ==> r == x
  {
    var low := x % TWO_32;
    if low < TWO_31 then low else low - TWO_32
  }

  /** `int arrayLen = size / entsize`, and the number of passes of
      `for (int i = 0; i < arrayLen; ++i)`. */
  function EntryCount(table: SectionHeader): (n: nat)
    requires table.entsize > 0
    ensures n <= table.size / table.entsize
    ensures table.size / table.entsize < TWO_31 ==> n == table.size / table.entsize
  {
    var arrayLen := ToCInt(table.size / table.entsize);
    if arrayLen < 0 then 0 else arrayLen
  }

  /** The `st_info` of the entry at `pos` says STT_FUNC. */
  predicate IsFunction(image: seq<Byte>, pos: nat): (b: bool)
    requires SymInImage(image, pos)
    ensures b <==> SymField(image, pos, StInfo) % 16 == STT_FUNC
  {
    NibbleArith(SymInfo(image, pos));
    ElfStType(SymInfo(image, pos)) == STT_FUNC
  }

  /** Entry i can be examined: its record lies in the image and, when it is a function,
      its name (`strings + st_name`) ends inside the image. */
  ghost predicate EntrySafe(image: seq<Byte>, table: SectionHeader, stride: nat, strings: nat, i: nat)
  {
    var pos := SymbolPos(table, stride, i);
    SymInImage(image, pos) &&
    (IsFunction(image, pos) ==> Terminated(image, strings + SymField(image, pos, StName)))
  }

  /** `ELF_ST_TYPE(info) == STT_FUNC && strcmp(symbol, symbolName) == 0` for entry i. */
  function Matches(image: seq<Byte>, table: SectionHeader, stride: nat, strings: nat,
                   symbol: seq<Byte>, i: nat): bool
    requires EntrySafe(image, table, stride, strings, i)
  {
    var pos := SymbolPos(table, stride, i);
    IsFunction(image, pos) && CString(image, strings + SymField(image, pos, StName)) == symbol
  }

  /** Entry i matches a C string `symbol` exactly when it is a function whose name, at
      `strings + st_name`, is stored as the bytes of `symbol` followed by a 0. */
  lemma MatchesStored(image: seq<Byte>, table: SectionHeader, stride: nat, strings: nat,
                      symbol: seq<Byte>, i: nat)
    requires EntrySafe(image, table, stride, strings, i) && IsCString(symbol)
    ensures var pos := SymbolPos(table, stride, i);
            var at := strings + SymField(image, pos, StName);
            Matches(image, table, stride, strings, symbol, i) <==>
              && IsFunction(image, pos)
              && at + |symbol| < |image| && image[at..at + |symbol|] == symbol
              && image[at + |symbol|] == 0
  {
    var pos := SymbolPos(table, stride, i);
    if IsFunction(image, pos) {
      CStringEquals(image, strings + SymField(image, pos, StName), symbol);
    }
  }

  /** The scan from entry i can run to its end: every entry up to the first match can
      be examined. */
  ghost predicate ScanSafe(image: seq<Byte>, table: SectionHeader, stride: nat, strings: nat,
                           symbol: seq<Byte>, i: nat, count: nat)
    decreases count - i
  {
    i >= count ||
    (EntrySafe(image, table, stride, strings, i) &&
     (!Matches(image, table, stride, strings, symbol, i) ==>
        ScanSafe(image, table, stride, strings, symbol, i + 1, count)))
  }

  /** The first matching entry among i .. count - 1. */
  function FirstMatch(image: seq<Byte>, table: SectionHeader, stride: nat, strings: nat,
                      symbol: seq<Byte>, i: nat, count: nat): (r: Option<nat>)
    requires ScanSafe(image, table, stride, strings, symbol, i, count)
    ensures r.Some? ==> i <= r.value < count
    decreases count - i
  {
    if i >= count then None
    else if Matches(image, table, stride, strings, symbol, i) then Some(i)
    else FirstMatch(image, table, stride, strings, symbol, i + 1, count)
  }

  /** FirstMatch is the first match: the entry it returns matches, every entry before
      it can be examined and does not match, and when it returns None no entry from i
      on matches. */
  lemma {:induction false} FirstMatchIsFirst(image: seq<Byte>, table: SectionHeader, stride: nat,
                                             strings: nat, symbol: seq<Byte>, i: nat, count: nat)
    requires ScanSafe(image, table, stride, strings, symbol, i, count)
    ensures var r := FirstMatch(image, table, stride, strings, symbol, i, count);
            && (r.Some? ==> EntrySafe(image, table, stride, strings, r.value) &&
                            Matches(image, table, stride, strings, symbol, r.value))
            && (forall j :: i <= j < (if r.Some? then r.value else count) ==>
                  EntrySafe(image, table, stride, strings, j) &&
                  !Matches(image, table, stride, strings, symbol, j))
    decreases count - i
  {
    if i < count && !Matches(image, table, stride, strings, symbol, i) {
      FirstMatchIsFirst(image, table, stride, strings, symbol, i + 1, count);
    }
  }

  /** One pass of the scan loop over entry i < count. */
  lemma ScanStep(image: seq<Byte>, table: SectionHeader, stride: nat, strings: nat,
                 symbol: seq<Byte>, i: nat, count: nat)
    requires ScanSafe(image, table, stride, strings, symbol, i, count) && i < count
    ensures EntrySafe(image, table, stride, strings, i)
    ensures Matches(image, table, stride, strings, symbol, i) ==>
              FirstMatch(image, table, stride, strings, symbol, i, count) == Some(i)
    ensures !Matches(image, table, stride, strings, symbol, i) ==>
              ScanSafe(image, table, stride, strings, symbol, i + 1, count) &&
              FirstMatch(image, table, stride, strings, symbol, i, count) ==
              FirstMatch(image, table, stride, strings, symbol, i + 1, count)
  {
  }

  /** `SYM_FIELD(..., value) >= 0 ? SYM_FIELD(..., value) : -1`: the value is unsigned,
      so the guard always holds and the result is the value itself. */
  function AddrOf(value: nat): (addr: int)
    ensures addr == value
  {
    if value >= 0 then value else 0xFFFF_FFFF_FFFF_FFFF
  }

  /** The scan of a symbol table can run: the entry size is not 0 and every entry up to
      the first match can be examined. */
  ghost predicate TableSafe(image: seq<Byte>, table: SectionHeader, stride: nat, strings: nat,
                            symbol: seq<Byte>)
  {
    table.entsize > 0 && ScanSafe(image, table, stride, strings, symbol, 0, EntryCount(table))
  }

  /** The value of the first function symbol called `symbol` in the table, 0 when there
      is none. */
  function Scan(image: seq<Byte>, table: SectionHeader, stride: nat, strings: nat,
                symbol: seq<Byte>): nat
    requires TableSafe(image, table, stride, strings, symbol)
  {
    FirstMatchIsFirst(image, table, stride, strings, symbol, 0, EntryCount(table));
    match FirstMatch(image, table, stride, strings, symbol, 0, EntryCount(table))
    case None => 0
    case Some(j) => AddrOf(SymField(image, SymbolPos(table, stride, j), StValue))
  }

  // ---------------------------------------------------------------- the symbol stride

  /** Where record i of a symbol table starts: a section's records lie `sh_entsize`
      bytes apart from `sh_offset`. */
  function RecordPos(table: SectionHeader, i: nat): nat
  {
    table.offset + i * table.entsize
  }

  /** The table's records are the symbol records of class c (`Elf32_Sym` or
      `Elf64_Sym`). */
  predicate RecordsOfClass(table: SectionHeader, c: Class)
  {
    table.entsize == SymSize(c)
  }

  /** Stepping by the record size of the file's class, entry i of the scan is record i
      of the table, and lies wholly inside the table. */
  lemma ClassStrideReadsRecords(table: SectionHeader, c: Class, i: nat)
    requires RecordsOfClass(table, c) && i < EntryCount(table)
    ensures SymbolPos(table, SymSize(c), i) == RecordPos(table, i)
    ensures table.offset <= SymbolPos(table, SymSize(c), i)
    ensures SymbolPos(table, SymSize(c), i) + SymSize(c) <= table.offset + table.size
  {
    var e := table.entsize;
    var q := table.size / e;
    assert i + 1 <= q;
    assert (i + 1) * e <= q * e;
    assert q * e <= table.size;
  }

  /** As written, the scan steps by SYM_HEADER_SIZE whatever the class. In a 32-bit
      table, whose records are 16 bytes, entry i is read 8 * i bytes past record i ... */
  lemma FixedStrideOn32(table: SectionHeader, i: nat)
    requires RecordsOfClass(table, C32)
    ensures SymbolPos(table, SYM_HEADER_SIZE, i) == RecordPos(table, i) + 8 * i
  {
  }

  /** ... so in a table of three records the second entry read straddles records 1
      and 2 and the third starts past the end of the table ... */
  lemma FixedStrideMisreads32()
    ensures var table := SectionHeader(0x100, 48, 16);
            && RecordsOfClass(table, C32) && EntryCount(table) == 3
            && RecordPos(table, 1) < SymbolPos(table, SYM_HEADER_SIZE, 1) < RecordPos(table, 2)
            && SymbolPos(table, SYM_HEADER_SIZE, 2) >= table.offset + table.size
  {
    var table := SectionHeader(0x100, 48, 16);
    FixedStrideOn32(table, 1);
    FixedStrideOn32(table, 2);
  }

  /** ... while in a 64-bit table the fixed stride is the record size, and the scan as
      written reads exactly the table's records. */
  lemma FixedStrideOn64(table: SectionHeader, i: nat)
    requires RecordsOfClass(table, C64)
    ensures SymbolPos(table, SYM_HEADER_SIZE, i) == RecordPos(table, i)
  {
  }

  // ---------------------------------------------------------------- the whole lookup

  /** The walk runs without undefined behaviour: the header lies in the image, there is
      at least one section, and every section can be visited. */
  ghost predicate WalkSafe(image: seq<Byte>)
  {
    HeaderInImage(image) && SectionCount(image) > 0 && SectionsSafe(image, SectionCount(image))
  }

  /** The lookup runs without undefined behaviour: the walk visits at least one section
      and reads only inside the image; the tables it then scans were assigned (a
      `.strtab` with the `.symtab`, a `.dynsym` and `.dynstr` without it) and can be
      scanned; the symbol is a C string. */
  ghost predicate LookupSafe(image: seq<Byte>, symbol: seq<Byte>)
  {
    && WalkSafe(image)
    && IsCString(symbol)
    && var cat := CatalogAfter(image, SectionCount(image));
       if cat.symSection.Some? then
         cat.strtab.Some? &&
         TableSafe(image, cat.symSection.value, SYM_HEADER_SIZE, cat.strtab.value, symbol)
       else
         cat.dynsymSection.Some? && cat.dynstr.Some? &&
         TableSafe(image, cat.dynsymSection.value, SYM_HEADER_SIZE, cat.dynstr.value, symbol)
  }

  /** What `findSymbolOffset` returns: the scan of `.symtab` with `.strtab` when the
      file has a `.symtab`, otherwise the scan of `.dynsym` with `.dynstr`. */
  function SymbolAddress(image: seq<Byte>, symbol: seq<Byte>): nat
    requires LookupSafe(image, symbol)
  {
    var cat := CatalogAfter(image, SectionCount(image));
    if cat.symSection.Some? then
      Scan(image, cat.symSection.value, SYM_HEADER_SIZE, cat.strtab.value, symbol)
    else
      Scan(image, cat.dynsymSection.value, SYM_HEADER_SIZE, cat.dynstr.value, symbol)
  }

  /** The lookup in terms of the sections themselves: with a `.symtab`, the last one is
      scanned with the last `.strtab`; without, the last `.dynsym` with the last
      `.dynstr`. */
  lemma LookupUsesLastTables(image: seq<Byte>, symbol: seq<Byte>)
    requires LookupSafe(image, symbol)
    ensures var t := SectionTable(image, SectionCount(image));
            var sym, strings := LastHeader(t, SymTab), LastOffset(t, StrTab);
            sym.Some? ==>
              && strings.Some?
              && TableSafe(image, sym.value, SYM_HEADER_SIZE, strings.value, symbol)
              && SymbolAddress(image, symbol) == Scan(image, sym.value, SYM_HEADER_SIZE, strings.value, symbol)
    ensures var t := SectionTable(image, SectionCount(image));
            var dyn, strings := LastHeader(t, DynSym), LastOffset(t, DynStr);
            LastHeader(t, SymTab).None? ==>
              && dyn.Some? && strings.Some?
              && TableSafe(image, dyn.value, SYM_HEADER_SIZE, strings.value, symbol)
              && SymbolAddress(image, symbol) == Scan(image, dyn.value, SYM_HEADER_SIZE, strings.value, symbol)
  {
    CatalogAfterTable(image, SectionCount(image));
    CatalogLastWrite(SectionTable(image, SectionCount(image)));
  }

  /** When no entry of the table matches, Scan returns 0 ... */
  lemma ScanNotFound(image: seq<Byte>, table: SectionHeader, stride: nat, strings: nat,
                     symbol: seq<Byte>)
    requires TableSafe(image, table, stride, strings, symbol)
    requires forall j :: 0 <= j < EntryCount(table) ==>
               EntrySafe(image, table, stride, strings, j) &&
               !Matches(image, table, stride, strings, symbol, j)
    ensures Scan(image, table, stride, strings, symbol) == 0
  {
    FirstMatchIsFirst(image, table, stride, strings, symbol, 0, EntryCount(table));
  }

  /** ... and when entry j is the first that matches, Scan returns its `st_value`. */
  lemma ScanFindsFirst(image: seq<Byte>, table: SectionHeader, stride: nat, strings: nat,
                       symbol: seq<Byte>, j: nat)
    requires TableSafe(image, table, stride, strings, symbol)
    requires j < EntryCount(table)
    requires EntrySafe(image, table, stride, strings, j)
    requires Matches(image, table, stride, strings, symbol, j)
    requires forall k :: 0 <= k < j ==>
               EntrySafe(image, table, stride, strings, k) &&
               !Matches(image, table, stride, strings, symbol, k)
    ensures Scan(image, table, stride, strings, symbol) ==
            SymField(image, SymbolPos(table, stride, j), StValue)
  {
    var count := EntryCount(table);
    FirstMatchIsFirst(image, table, stride, strings, symbol, 0, count);
    var r := FirstMatch(image, table, stride, strings, symbol, 0, count);
    if r.None? || r.value != j {
      assert false;
    }
  }

  // ---------------------------------------------------------------- the C functions

  /** The loop over a symbol table that `findSymbolOffset` runs over `.symtab` with
      `strtab` and `findDynSymbolOffset` over `.dynsym` with `strings`: the two loops
      are the same code, entry by entry `stride` bytes apart (`sizeof(SymHeader)` as
      written). */
  method ScanSymbolTable(image: seq<Byte>, symbol: seq<Byte>, table: SectionHeader,
                         stride: nat, strings: nat) returns (addr: nat)
    requires TableSafe(image, table, stride, strings, symbol)
    ensures addr == Scan(image, table, stride, strings, symbol)
  {
    var count := EntryCount(table);
    var arrayLen := ToCInt(table.size / table.entsize);
    var off := table.offset;
    var i := 0;
    while i < arrayLen
      invariant 0 <= i <= count
      invariant ScanSafe(image, table, stride, strings, symbol, i, count)
      invariant FirstMatch(image, table, stride, strings, symbol, 0, count) ==
                FirstMatch(image, table, stride, strings, symbol, i, count)
    {
      ScanStep(image, table, stride, strings, symbol, i, count);
      var pos := ElementPos(off, stride, i);
      assert pos == SymbolPos(table, stride, i);
      var info := SymInfo(image, pos);
      if ElfStType(info) == STT_FUNC && CString(image, strings + SymField(image, pos, StName)) == symbol {
        assert Matches(image, table, stride, strings, symbol, i);
        addr := AddrOf(SymField(image, pos, StValue));
        return;
      }
      i := i + 1;
    }
    addr := 0;
  }

  /** `findDynSymbolOffset`: the scan of the dynamic symbol table with `dynstr`. */
  method FindDynSymbolOffset(image: seq<Byte>, symbol: seq<Byte>, table: SectionHeader,
                             dynstr: nat) returns (addr: nat)
    requires TableSafe(image, table, SYM_HEADER_SIZE, dynstr, symbol)
    ensures addr == Scan(image, table, SYM_HEADER_SIZE, dynstr, symbol)
  {
    addr := ScanSymbolTable(image, symbol, table, SYM_HEADER_SIZE, dynstr);
  }

  /** What the walk leaves behind once it has visited every section decides the
      lookup: the `.symtab` scan when it found one, the `.dynsym` scan otherwise. */
  lemma WalkEnd(image: seq<Byte>, symbol: seq<Byte>, cat: Catalog)
    requires LookupSafe(image, symbol)
    requires cat == CatalogAfter(image, SectionCount(image))
    ensures cat.symSection.Some? ==>
              && cat.strtab.Some?
              && TableSafe(image, cat.symSection.value, SYM_HEADER_SIZE, cat.strtab.value, symbol)
              && SymbolAddress(image, symbol) ==
                 Scan(image, cat.symSection.value, SYM_HEADER_SIZE, cat.strtab.value, symbol)
    ensures cat.symSection.None? ==>
              && cat.dynsymSection.Some? && cat.dynstr.Some?
              && TableSafe(image, cat.dynsymSection.value, SYM_HEADER_SIZE, cat.dynstr.value, symbol)
              && SymbolAddress(image, symbol) ==
                 Scan(image, cat.dynsymSection.value, SYM_HEADER_SIZE, cat.dynstr.value, symbol)
  {
  }

  /** One pass of the walk's body: the name of section i is read from `shstrtab` and
      the if-else chain remembers the section when the name is one of the four, and
      sets `getSymSection` on `.symtab`. */
  method VisitSection(image: seq<Byte>, i: nat, shstrtab: nat,
                      strtab: Option<nat>, dynstr: Option<nat>,
                      symSection: Option<SectionHeader>, dynsymSection: Option<SectionHeader>,
                      getSymSection: bool)
    returns (strtab': Option<nat>, dynstr': Option<nat>,
             symSection': Option<SectionHeader>, dynsymSection': Option<SectionHeader>,
             getSymSection': bool)
    requires SectionSafe(image, i) && shstrtab == Shstrtab(image)
    ensures Catalog(strtab', dynstr', symSection', dynsymSection') ==
            Record(Catalog(strtab, dynstr, symSection, dynsymSection), ViewOf(image, i))
    ensures getSymSection' <==> getSymSection || ViewOf(image, i).role == SymTab
    ensures symSection'.Some? <==> symSection.Some? || ViewOf(image, i).role == SymTab
  {
    var pos := ElementPos(ElfField(image, Shoff), ElfField(image, Shentsize), i);
    ReadView(image, i, pos, shstrtab);
    strtab', dynstr', symSection', dynsymSection' := strtab, dynstr, symSection, dynsymSection;
    getSymSection' := getSymSection;
    var sectionName := CString(image, shstrtab + SectionFieldAt(image, pos, ShName));
    if sectionName == STRTAB {
      strtab' := Some(SectionFieldAt(image, pos, ShOffset));
    } else if sectionName == DYNSTR {
      dynstr' := Some(SectionFieldAt(image, pos, ShOffset));
    } else if sectionName == SYMTAB {
      symSection' := Some(DecodeSection(image, pos));
      getSymSection' := true;
    } else if sectionName == DYNSYM {
      dynsymSection' := Some(DecodeSection(image, pos));
    }
  }

  /** The loop of `findSymbolOffset` over the section headers. It leaves behind the
      four variables after visiting every section; `fellBack` says that it stopped at
      the last section without having seen `.symtab`, where the C code returns the
      result of `findDynSymbolOffset`. */
  method WalkSections(image: seq<Byte>)
    returns (strtab: Option<nat>, dynstr: Option<nat>,
             symSection: Option<SectionHeader>, dynsymSection: Option<SectionHeader>,
             fellBack: bool)
    requires WalkSafe(image)
    ensures Catalog(strtab, dynstr, symSection, dynsymSection) ==
            CatalogAfter(image, SectionCount(image))
    ensures fellBack <==> symSection.None?
  {
    assert SectionSafe(image, 0);
    var shstrtab := Shstrtab(image);
    strtab, dynstr, symSection, dynsymSection := None, None, None, None;
    var getSymSection := false;
    var i := 0;
    while i < ElfField(image, Shnum)
      invariant 0 <= i <= SectionCount(image)
      invariant Catalog(strtab, dynstr, symSection, dynsymSection) == CatalogAfter(image, i)
      invariant getSymSection <==> symSection.Some?
      invariant i == SectionCount(image) ==> getSymSection
    {
      strtab, dynstr, symSection, dynsymSection, getSymSection :=
        VisitSection(image, i, shstrtab, strtab, dynstr, symSection, dynsymSection, getSymSection);
      if i == ElfField(image, Shnum) - 1 && !getSymSection {
        fellBack := true;
        return;
      }
      i := i + 1;
    }
    fellBack := false;
  }

  /** `findSymbolOffset` on the mapped file: the walk over the section headers, with
      the fallback to `findDynSymbolOffset` on the last section, then the scan of
      `.symtab`. */
  method FindSymbolOffset(image: seq<Byte>, symbol: seq<Byte>) returns (addr: nat)
    requires LookupSafe(image, symbol)
    ensures addr == SymbolAddress(image, symbol)
  {
    var strtab, dynstr, symSection, dynsymSection, fellBack := WalkSections(image);
    WalkEnd(image, symbol, Catalog(strtab, dynstr, symSection, dynsymSection));
    if fellBack {
      addr := FindDynSymbolOffset(image, symbol, dynsymSection.value, dynstr.value);
    } else {
      addr := ScanSymbolTable(image, symbol, symSection.value, SYM_HEADER_SIZE, strtab.value);
    }
  }

  // ---------------------------------------------------------------- the mapping size

  /** `(st_size + pageSize - 1) / pageSize`: the fewest pages that hold the file. */
  function PagesFor(stSize: nat, pageSize: nat): (n: nat)
    requires pageSize > 0
    ensures stSize <= n * pageSize
    ensures n > 0 ==> (n - 1) * pageSize < stSize
  {
    var n := (stSize + pageSize - 1) / pageSize;
    var rem := (stSize + pageSize - 1) % pageSize;
    assert stSize + pageSize - 1 == n * pageSize + rem;
    assert (n - 1) * pageSize == n * pageSize - pageSize;
    n
  }

  /** `mmapSize = (st_size + pageSize - 1) / pageSize * pageSize`: the file size
      rounded up to whole pages, which covers the file and wastes less than a page. */
  function MmapSize(stSize: nat, pageSize: nat): (r: nat)
    requires pageSize > 0
    ensures stSize <= r < stSize + pageSize
    ensures r == PagesFor(stSize, pageSize) * pageSize
  {
    var n := PagesFor(stSize, pageSize);
    assert (n - 1) * pageSize == n * pageSize - pageSize;
    n * pageSize
  }
}
