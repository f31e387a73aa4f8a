/** The arithmetic on octets in this project is the bit arithmetic of the macros. */
module Masks {
  import opened Octets
  import opened Schema

  /** The masks the macros take from an octet. */
  lemma MasksAreBits(b: bv8)
    ensures (b & 0x20) as int == ConstructedBit(b as int)
    ensures (b & !0x20) as int == WithoutConstructed(b as int)
    ensures (b & 0xc0) as int == ClassBits(b as int)
  {
  }

  /** The octet put_IMP_opt writes and the one get_imp writes, for tags that one
      octet holds. */
  lemma ImplicitIsBits(b: bv8, tag: bv8)
    requires tag < 31
    ensures (0x80 | tag | (b & 0x20)) as int == CONTEXT_SPECIFIC + tag as int + ConstructedBit(b as int)
    ensures ((b & 0x20) | tag) as int == ConstructedBit(b as int) + tag as int
  {
  }

  /** The numbers the guards compare an octet with, 0x20|0x00|tag and
      0x20|0x80|tag, for every int tag: the masks touch only its last octet
      `low`. */
  lemma GuardIsBits(tag: Tag, low: bv8)
    requires tag % 256 == low as int
    ensures GuardNumber(UNIVERSAL, tag) == tag - low as int + (0x20 | 0x00 | low) as int
    ensures GuardNumber(CONTEXT_SPECIFIC, tag) == tag - low as int + (0x20 | 0x80 | low) as int
  {
    LowOctet(tag);
    UniversalGuard(low);
    ContextGuard(low);
  }

  lemma UniversalGuard(low: bv8)
    ensures GuardNumber(UNIVERSAL, low as int) == (0x20 | low) as int
  {
  }

  lemma ContextGuard(low: bv8)
    ensures GuardNumber(CONTEXT_SPECIFIC, low as int) == (0xa0 | low) as int
  {
  }

  lemma LowOctet(tag: Tag)
    ensures GuardNumber(UNIVERSAL, tag) - tag == GuardNumber(UNIVERSAL, tag % 256) - tag % 256
    ensures GuardNumber(CONTEXT_SPECIFIC, tag) - tag == GuardNumber(CONTEXT_SPECIFIC, tag % 256) - tag % 256
  {
    var q, r := tag / 256, tag % 256;
    BitOf(tag, 32, 4 * q, r);
    BitOf(tag, 128, q, r);
  }

  /** The bit of weight `b` is that of the remainder `r`. */
  lemma BitOf(n: nat, b: nat, q: nat, r: nat)
    requires b == 32 || b == 128
    requires n == 2 * b * q + r
    ensures n / b % 2 == r / b % 2
  {
    if b == 32 {
      assert n / 32 == 2 * q + r / 32;
    } else {
      assert n / 128 == 2 * q + r / 128;
    }
  }

  /** The tags whose EXPLICIT header its own guard takes. */
  lemma GuardedTags(tag: Tag)
    ensures IsGuarded(CONTEXT_SPECIFIC, tag) <==> tag <= 31 || tag == 63 || tag == 159 || tag == 191
  {
  }
}
