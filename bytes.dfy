/** Byte images and the primitive reads the C code performs on them: little-endian
    unsigned fields at fixed offsets and null-terminated strings. The image is the
    read-only mapping of the whole ELF file. */
module Bytes {

  /** One byte of the image (`unsigned char`). */
  type Byte = b: int | 0 <= b < 256

  /** 256 to the power n: one more than the largest value an n-byte field holds. */
  function Pow256(n: nat): (r: nat)
    ensures r >= 1
  {
    if n == 0 then 1 else 256 * Pow256(n - 1)
  }

  /** Where element i of an array of `stride`-byte elements starting at byte `base`
      begins: the C pointer arithmetic `base + i * stride`. */
  function ElementPos(base: nat, stride: nat, i: nat): nat
  {
    base + i * stride
  }

  /** The unsigned little-endian integer stored in the bytes `lo` .. `hi` - 1 (the
      value a native little-endian load of a `uintN_t` field returns). */
  function ReadLE(s: seq<Byte>, lo: nat, hi: nat): (v: nat)
    requires lo <= hi <= |s|
    ensures v < Pow256(hi - lo)
    decreases hi - lo
  {
    if lo == hi then 0
    else
      var rest := ReadLE(s, lo + 1, hi);
      assert 256 * rest <= 256 * (Pow256(hi - lo - 1) - 1);
      s[lo] + 256 * rest
  }

  /** The `width` bytes that store `v` in little-endian order: the inverse of ReadLE. */
  function EncodeLE(v: nat, width: nat): (r: seq<Byte>)
    requires v < Pow256(width)
    ensures |r| == width
    decreases width
  {
    if width == 0 then [] else [v % 256] + EncodeLE(v / 256, width - 1)
  }

  /** Reading bytes that encode `v` gives `v` back. */
  lemma {:induction false} ReadEncode(s: seq<Byte>, off: nat, v: nat, width: nat)
    requires off + width <= |s| && v < Pow256(width)
    requires s[off..off + width] == EncodeLE(v, width)
    ensures ReadLE(s, off, off + width) == v
    decreases width
  {
    if width > 0 {
      var e := EncodeLE(v, width);
      assert s[off] == e[0];
      assert s[off + 1..off + width] == e[1..] == EncodeLE(v / 256, width - 1);
      ReadEncode(s, off + 1, v / 256, width - 1);
    }
  }

  /** Encoding the value `width` bytes store gives the bytes back: together with
      ReadEncode, the byte strings of length n and the values below Pow256(n) are in
      one-to-one correspondence. */
  lemma {:induction false} EncodeRead(s: seq<Byte>, off: nat, width: nat)
    requires off + width <= |s|
    ensures EncodeLE(ReadLE(s, off, off + width), width) == s[off..off + width]
    decreases width
  {
    if width > 0 {
      var v, rest := ReadLE(s, off, off + width), ReadLE(s, off + 1, off + width);
      EncodeRead(s, off + 1, width - 1);
      assert 256 * rest <= 256 * Pow256(width - 1) - 256;
      assert v % 256 == s[off] && v / 256 == rest;
      assert s[off..off + width] == [s[off]] + s[off + 1..off + width];
    }
  }

  /** `width` bytes read as `v` exactly when they are the little-endian encoding of `v`. */
  lemma ReadIsEncoding(s: seq<Byte>, off: nat, width: nat, v: nat)
    requires off + width <= |s| && v < Pow256(width)
    ensures ReadLE(s, off, off + width) == v <==> s[off..off + width] == EncodeLE(v, width)
  {
    EncodeRead(s, off, width);
    if s[off..off + width] == EncodeLE(v, width) {
      ReadEncode(s, off, v, width);
    }
  }

  /** A byte 0 occurs at or after `off`: a C string starting there ends inside the image. */
  predicate Terminated(s: seq<Byte>, off: nat)
    decreases |s| - off
  {
    off < |s| && (s[off] == 0 || Terminated(s, off + 1))
  }

  /** A C string: a byte sequence without the terminating 0. */
  predicate IsCString(t: seq<Byte>)
  {
    forall k :: 0 <= k < |t| ==> t[k] != 0
  }

  /** The null-terminated string starting at `off` (the `const char *` the C code
      hands to `strcmp`), without its terminator: a string without a 0, ended by the
      first 0 at or after `off`, which lies inside `s`. */
  function CString(s: seq<Byte>, off: nat): (r: seq<Byte>)
    requires Terminated(s, off)
    ensures off + |r| < |s| && s[off + |r|] == 0
    ensures IsCString(r)
    decreases |s| - off
  {
    if s[off] == 0 then [] else [s[off]] + CString(s, off + 1)
  }

  /** CString reads exactly the bytes from `off` up to its terminator. */
  lemma {:induction false} CStringEnds(s: seq<Byte>, off: nat)
    requires Terminated(s, off)
    ensures CString(s, off) == s[off..off + |CString(s, off)|]
    decreases |s| - off
  {
    if s[off] != 0 {
      CStringEnds(s, off + 1);
    }
  }

  /** The string is determined by its bytes and terminator: any C string stored at
      `off` and followed by 0 is what CString reads there. */
  lemma {:induction false} CStringStored(s: seq<Byte>, off: nat, t: seq<Byte>)
    requires IsCString(t)
    requires off + |t| < |s| && s[off..off + |t|] == t && s[off + |t|] == 0
    ensures Terminated(s, off)
    ensures CString(s, off) == t
    decreases |t|
  {
    assert s[off + |t|] == 0;
    if t != [] {
      assert s[off] == t[0];
      assert s[off + 1..off + 1 + |t[1..]|] == t[1..];
      CStringStored(s, off + 1, t[1..]);
    }
  }

  /** `strcmp(t, s + off) == 0` for a C string `t`: the string at `off` equals `t`
      exactly when `t` is stored there, followed by a 0. */
  lemma CStringEquals(s: seq<Byte>, off: nat, t: seq<Byte>)
    requires Terminated(s, off)
    ensures IsCString(t) ==>
              (CString(s, off) == t <==> off + |t| < |s| && s[off..off + |t|] == t && s[off + |t|] == 0)
  {
    CStringEnds(s, off);
    if IsCString(t) && off + |t| < |s| && s[off..off + |t|] == t && s[off + |t|] == 0 {
      CStringStored(s, off, t);
    }
  }
}
