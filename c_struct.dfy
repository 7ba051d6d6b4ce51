/** How a C compiler on the System V ABI lays out a `struct` of the field types the
    ELF headers use: every member at the next offset aligned to its own alignment, the
    whole rounded up to its largest alignment. A layout carries the offset of each
    member and the total size; IsCLayout says they are the ones the compiler chooses,
    and LayoutUnique that no other offsets or size satisfy the rule. */
module CStruct {

  /** `unsigned char`, `uint16_t`, `uint32_t`, `uint64_t` and `unsigned char[n]`. */
  datatype CType = UChar | U16 | U32 | U64 | UCharArray(n: nat)

  function SizeOf(t: CType): nat
  {
    match t
    case UChar => 1
    case U16 => 2
    case U32 => 4
    case U64 => 8
    case UCharArray(n) => n
  }

  /** Natural alignment: a scalar is aligned to its own size, a byte array to 1. */
  function AlignOf(t: CType): (r: nat)
    ensures r >= 1
  {
    match t
    case UChar => 1
    case U16 => 2
    case U32 => 4
    case U64 => 8
    case UCharArray(_) => 1
  }

  /** A struct's member types in declaration order, the offset of each member and the
      struct's size. */
  datatype Layout = Layout(types: seq<CType>, offsets: seq<nat>, size: nat)

  /** The least multiple of `a` that is at least `off`. */
  function AlignUp(off: nat, a: nat): (r: nat)
    requires a >= 1
    ensures off <= r < off + a
    ensures r % a == 0
  {
    var q := (off + a - 1) / a;
    MultipleOf(q, a);
    q * a
  }

  /** A multiple of `a` leaves no remainder. */
  lemma MultipleOf(q: nat, a: nat)
    requires a >= 1
    ensures (q * a) % a == 0
  {
    assert q * a == a * q + 0;
  }

  /** Every member after the first starts at the end of the previous one, aligned up
      to its own alignment. */
  predicate Placed(m: seq<CType>, offs: seq<nat>)
    requires |offs| == |m|
  {
    forall k :: 0 < k < |m| ==> offs[k] == AlignUp(offs[k - 1] + SizeOf(m[k - 1]), AlignOf(m[k]))
  }

  /** The largest alignment among members k .. |m| - 1 (1 for none). */
  function MaxAlignFrom(m: seq<CType>, k: nat): (r: nat)
    requires k <= |m|
    ensures r >= 1
    decreases |m| - k
  {
    if k == |m| then 1
    else
      var rest := MaxAlignFrom(m, k + 1);
      if rest < AlignOf(m[k]) then AlignOf(m[k]) else rest
  }

  /** The offset just past the last member. */
  function EndOfMembers(l: Layout): nat
    requires |l.offsets| == |l.types|
  {
    if l.types == [] then 0
    else l.offsets[|l.types| - 1] + SizeOf(l.types[|l.types| - 1])
  }

  /** The offsets and size are the ones the C layout rule gives for the members. */
  predicate IsCLayout(l: Layout)
  {
    && |l.offsets| == |l.types|
    && (|l.types| > 0 ==> l.offsets[0] == 0 && Placed(l.types, l.offsets))
    && l.size == AlignUp(EndOfMembers(l), MaxAlignFrom(l.types, 0))
  }

  /** IsCLayout from its parts, with the alignment and end already computed. */
  lemma IsCLayoutFrom(l: Layout, align: nat, end: nat)
    requires |l.offsets| == |l.types| && |l.types| > 0 && l.offsets[0] == 0
    requires Placed(l.types, l.offsets)
    requires MaxAlignFrom(l.types, 0) == align && EndOfMembers(l) == end
    requires align >= 1 && l.size == AlignUp(end, align)
    ensures IsCLayout(l)
  {
  }

  /** The alignment of a union of two structs: the larger of their alignments. */
  function UnionAlign(a: Layout, b: Layout): (r: nat)
    ensures r >= 1
  {
    var aa := MaxAlignFrom(a.types, 0);
    var ba := MaxAlignFrom(b.types, 0);
    if aa < ba then ba else aa
  }

  /** `sizeof` a union of two structs: room for either member, a multiple of the
      union's alignment, and less than one alignment unit of padding past the larger
      member. */
  function UnionSize(a: Layout, b: Layout): (r: nat)
    ensures a.size <= r && b.size <= r
    ensures r % UnionAlign(a, b) == 0
    ensures r - UnionAlign(a, b) < a.size || r - UnionAlign(a, b) < b.size
  {
    AlignUp(if a.size < b.size then b.size else a.size, UnionAlign(a, b))
  }

  /** The layout rule leaves no choice: two C layouts of the same members agree. */
  lemma LayoutUnique(a: Layout, b: Layout)
    requires IsCLayout(a) && IsCLayout(b) && a.types == b.types
    ensures a == b
  {
    var m := a.types;
    forall k | 0 <= k < |m|
      ensures a.offsets[k] == b.offsets[k]
    {
      SameOffsets(a, b, k);
    }
  }

  lemma {:induction false} SameOffsets(a: Layout, b: Layout, k: nat)
    requires IsCLayout(a) && IsCLayout(b) && a.types == b.types
    requires k < |a.types|
    ensures a.offsets[k] == b.offsets[k]
  {
    if k > 0 {
      SameOffsets(a, b, k - 1);
    }
  }

  /** Members never overlap and never run past the struct's end. */
  lemma {:induction false} MembersInside(l: Layout, k: nat)
    requires IsCLayout(l) && k < |l.types|
    ensures l.offsets[k] + SizeOf(l.types[k]) <= l.size
    ensures k + 1 < |l.types| ==> l.offsets[k] + SizeOf(l.types[k]) <= l.offsets[k + 1]
    decreases |l.types| - k
  {
    if k + 1 < |l.types| {
      MembersInside(l, k + 1);
    }
  }
}
