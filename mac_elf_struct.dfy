/** The ELF constants, typedefs and section header layouts of mac_elf_struct.h that the
    symbol lookup uses: the symbol type codes, the `st_info` packing macros and the
    32- and 64-bit section header records (System V ABI, chapter 4 "Object Files",
    sections "Sections" and "Symbol Table"). */
module MacElfStruct {
  import opened Bytes
  import opened CStruct

  /** Symbol binding codes (the high nibble of `st_info`). */
  const STB_LOCAL: nat := 0
  const STB_GLOBAL: nat := 1
  const STB_WEAK: nat := 2

  /** Symbol type codes (the low nibble of `st_info`). */
  const STT_NOTYPE: nat := 0
  const STT_OBJECT: nat := 1
  const STT_FUNC: nat := 2
  const STT_SECTION: nat := 3
  const STT_FILE: nat := 4
  const STT_COMMON: nat := 5
  const STT_TLS: nat := 6

  /** `ELF_ST_BIND(x)`: `x >> 4`. The ELF32_ and ELF64_ forms expand to this macro. */
  function ElfStBind(x: Byte): (r: nat)
    ensures r < 16
  {
    ((x as bv8) >> 4) as nat
  }

  /** `ELF_ST_TYPE(x)`: `(unsigned int) x & 0xf`. The ELF32_ and ELF64_ forms expand to
      this macro, and elf_self.h's redefinition `info & 0x0F` agrees with it on bytes. */
  function ElfStType(x: Byte): (r: nat)
    ensures r < 16
  {
    ((x as bv8) & 0x0F) as nat
  }

  /** `st_info` rebuilt from a binding and a type (the ABI's `ELF32_ST_INFO`). */
  function ElfStInfo(bind: nat, typ: nat): (r: Byte)
    requires bind < 16 && typ < 16
  {
    bind * 16 + typ
  }

  /** The shift and the mask are division and remainder by 16. */
  lemma NibbleArith(x: Byte)
    ensures ElfStBind(x) == x / 16 && ElfStType(x) == x % 16
  {
    InfoSplit(x);
  }

  /** Binding and type split an info byte without loss ... */
  lemma InfoSplit(b: Byte)
    ensures ElfStInfo(ElfStBind(b), ElfStType(b)) == b
  {
  }

  /** ... and splitting a packed byte gives the binding and type back. */
  lemma InfoPack(bind: nat, typ: nat)
    requires bind < 16 && typ < 16
    ensures ElfStBind(ElfStInfo(bind, typ)) == bind && ElfStType(ElfStInfo(bind, typ)) == typ
  {
    NibbleArith(ElfStInfo(bind, typ));
  }

  /** A symbol is a function exactly when the type nibble is STT_FUNC; the binding
      nibble plays no part, and none of the other type codes is STT_FUNC. */
  lemma FuncTypeOnly(b: Byte)
    ensures ElfStType(b) == STT_FUNC <==> b % 16 == 2
    ensures STT_FUNC !in {STT_NOTYPE, STT_OBJECT, STT_SECTION, STT_FILE, STT_COMMON, STT_TLS}
  {
    NibbleArith(b);
  }

  /** The lookup does not look at the binding: a local, a global and a weak function
      symbol all carry the type STT_FUNC, and their info bytes differ only in the
      binding nibble. */
  lemma FuncAnyBinding(bind: nat)
    requires bind in {STB_LOCAL, STB_GLOBAL, STB_WEAK}
    ensures ElfStType(ElfStInfo(bind, STT_FUNC)) == STT_FUNC
    ensures ElfStBind(ElfStInfo(bind, STT_FUNC)) == bind
  {
    InfoPack(bind, STT_FUNC);
  }

  /** The member names of `Elf32_Shdr` and `Elf64_Shdr`, in declaration order. */
  const SHDR_NAMES: seq<string> := [
    "sh_name", "sh_type", "sh_flags", "sh_addr", "sh_offset", "sh_size",
    "sh_link", "sh_info", "sh_addralign", "sh_entsize"]

  /** `Elf32_Shdr`: ten 4-byte words, 40 bytes. */
  const SHDR32_TYPES: seq<CType> := [U32, U32, U32, U32, U32, U32, U32, U32, U32, U32]
  const SHDR32_OFFSETS: seq<nat> := [0, 4, 8, 12, 16, 20, 24, 28, 32, 36]
  const ELF32_SHDR: Layout := Layout(SHDR32_TYPES, SHDR32_OFFSETS, 40)

  /** `Elf64_Shdr`: the same members, with flags, address, offset, size, alignment and
      entry size widened to 8 bytes; 64 bytes. */
  const SHDR64_TYPES: seq<CType> := [U32, U32, U64, U64, U64, U64, U32, U32, U64, U64]
  const SHDR64_OFFSETS: seq<nat> := [0, 4, 8, 16, 24, 32, 40, 44, 48, 56]
  const ELF64_SHDR: Layout := Layout(SHDR64_TYPES, SHDR64_OFFSETS, 64)

  /** Every member of `Elf32_Shdr` sits where the layout rule puts it. */
  lemma Shdr32Placed()
    ensures Placed(SHDR32_TYPES, SHDR32_OFFSETS)
  {
    var m, offs := SHDR32_TYPES, SHDR32_OFFSETS;
    forall k | 0 < k < 10 ensures offs[k] == AlignUp(offs[k - 1] + SizeOf(m[k - 1]), AlignOf(m[k])) {
      assert k in {1, 2, 3, 4, 5, 6, 7, 8, 9};
    }
  }

  /** `Elf32_Shdr` is aligned like its widest member. */
  lemma Shdr32Align()
    ensures MaxAlignFrom(SHDR32_TYPES, 0) == 4
  {
  }

  /** The offsets and size of `Elf32_Shdr` are the ones the compiler gives it. */
  lemma Shdr32Layout()
    ensures IsCLayout(ELF32_SHDR)
  {
    Shdr32Placed();
    Shdr32Align();
    assert EndOfMembers(ELF32_SHDR) == 40;
    IsCLayoutFrom(ELF32_SHDR, 4, 40);
  }

  /** Every member of `Elf64_Shdr` sits where the layout rule puts it. */
  lemma Shdr64Placed()
    ensures Placed(SHDR64_TYPES, SHDR64_OFFSETS)
  {
    var m, offs := SHDR64_TYPES, SHDR64_OFFSETS;
    forall k | 0 < k < 10 ensures offs[k] == AlignUp(offs[k - 1] + SizeOf(m[k - 1]), AlignOf(m[k])) {
      assert k in {1, 2, 3, 4, 5, 6, 7, 8, 9};
    }
  }

  /** `Elf64_Shdr` is aligned like its widest member. */
  lemma Shdr64Align()
    ensures MaxAlignFrom(SHDR64_TYPES, 0) == 8
  {
  }

  /** The offsets and size of `Elf64_Shdr` are the ones the compiler gives it. */
  lemma Shdr64Layout()
    ensures IsCLayout(ELF64_SHDR)
  {
    Shdr64Placed();
    Shdr64Align();
    assert EndOfMembers(ELF64_SHDR) == 64;
    IsCLayoutFrom(ELF64_SHDR, 8, 64);
  }
}
