/** Octets, the C integer widths the macros run in, and the tag constants of
    include/asn1.h. Masks are written as arithmetic on an octet. */
module Octets {
  type byte = x: int | 0 <= x < 256
  type bytes = seq<byte>

  const INT_MAX: int := 0x7fff_ffff
  const LONG_MAX: int := 0x7fff_ffff_ffff_ffff

  /** A C `int`: Dafny checks every assignment to one for overflow. */
  type CInt = x: int | -0x8000_0000 <= x <= 0x7fff_ffff

  /** The two class bits of an identifier octet. */
  type Class = x: int | x == 0 || x == 0x40 || x == 0x80 || x == 0xc0
  const UNIVERSAL: Class := 0
  const CONTEXT_SPECIFIC: Class := 0x80
  const CONSTRUCTED: byte := 0x20
  const PRIMITIVE_TAG: byte := 0x1f
  const SEQUENCE: nat := 16
  /** The largest universal tag a header may carry. */
  const MAX_UNIVERSAL: nat := 0xff
  /** The length octet that announces an indefinite length. */
  const INDEFINITE: byte := 0x80

  /** A tag number: a C `int` that is not negative. */
  type Tag = x: int | 0 <= x <= 0x7fff_ffff

  datatype Option<+T> = None | Some(value: T)

  /** b & V_ASN1_CONSTRUCTED */
  function ConstructedBit(b: byte): byte {
    b / 32 % 2 * 32
  }

  /** b & ~V_ASN1_CONSTRUCTED */
  function WithoutConstructed(b: byte): byte {
    b - ConstructedBit(b)
  }

  /** b & V_ASN1_PRIVATE, the class bits */
  function ClassBits(b: byte): Class {
    b / 64 * 64
  }

  /** V_ASN1_CONSTRUCTED or nothing */
  function Bit(constructed: bool): byte {
    if constructed then CONSTRUCTED else 0
  }

  lemma Slices(h: bytes, body: bytes, rest: bytes)
    ensures var w := h + (body + rest);
            && w == h + body + rest
            && w[|h|..] == body + rest
            && w[|h|..|h| + |body|] == body
  {
  }

  lemma Regroup(a: bytes, b: bytes, c: bytes, d: bytes)
    ensures a + b + c + d == a + (b + (c + d))
  {
  }

  lemma Assoc(a: bytes, b: bytes, c: bytes)
    ensures a + (b + c) == a + b + c
  {
  }

  lemma DropTwice(w: bytes, i: nat, j: nat)
    requires i + j <= |w|
    ensures w[i + j..] == w[i..][j..]
  {
  }

  /** The `length` octets at position `p`; a negative length is an empty window. */
  function Window(s: bytes, p: nat, length: int): (w: bytes)
    requires length > 0 ==> p + length <= |s|
    ensures |w| == if length > 0 then length else 0
  {
    if length > 0 then s[p..p + length] else []
  }

  /** `s` with the octets at position `p` replaced by `e`. */
  function Splice(s: bytes, p: nat, e: bytes): (r: bytes)
    requires p + |e| <= |s|
    ensures |r| == |s|
  {
    s[..p] + e + s[p + |e|..]
  }

  lemma SpliceTwice(s: bytes, p: nat, a: bytes, b: bytes)
    requires p + |a| + |b| <= |s|
    ensures Splice(Splice(s, p, a), p + |a|, b) == Splice(s, p, a + b)
  {
  }
}
