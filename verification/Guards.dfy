/** The guards of the get macros take the tag of their field and no other. */
module Guards {
  import opened Octets
  import opened Header
  import opened Schema
  import opened Decode
  import opened Primitives

  /** The number the guard compares with is one octet's: always for the macros
      without EXPLICIT or list tags, and otherwise for the tags it can see. */
  predicate HasGuard(f: Field) {
    match f
    case ExpOpt(_, mtag) => IsGuarded(CONTEXT_SPECIFIC, mtag)
    case ListOpt(t) => t.List? && IsGuarded(t.cls, t.tag)
    case _ => true
  }

  lemma GuardsExact(f: Field, b: byte)
    requires HasGuard(f)
    ensures Takes(f, b) <==> Names(f, b)
  {
    hide IsGuarded;
    match f
    case Plain(_) =>
    case Opt(_, typ) => MaskedOctet(b, UNIVERSAL, typ);
    case ImpOpt(_, tag, _) => MaskedOctet(b, CONTEXT_SPECIFIC, tag);
    case ExpOpt(_, mtag) => GuardOctet(b, CONTEXT_SPECIFIC, mtag);
    case ListOpt(t) => GuardOctet(b, t.cls, t.tag);
  }

  lemma MaskedOctet(b: byte, cls: Class, tag: LowTag)
    ensures WithoutConstructed(b) == cls + tag <==> IsTagged(b, cls, tag)
  {
    hide ClassBits, WithoutConstructed;
    ClassAndNumber(b);
  }

  lemma ClassAndNumber(b: byte)
    ensures WithoutConstructed(b) == ClassBits(b) + b % 32
  {
    assert b == b / 64 * 64 + b / 32 % 2 * 32 + b % 32;
  }

  lemma GuardOctet(b: byte, cls: Class, tag: Tag)
    requires IsGuarded(cls, tag)
    ensures b == GuardNumber(cls, tag) <==> IsTagged(b, cls, Shown(tag)) && ConstructedBit(b) != 0
  {
    hide GuardNumber;
  }

  /** A field whose tag is not the next one is passed by: nothing is read and its
      object stays. One whose tag is next is read. */
  lemma PassedBy(f: Field, slot: Slot, rest: bytes)
    requires HasGuard(f) && !f.Plain?
    ensures rest == [] || !Names(f, rest[0]) ==> DecField(f, slot, rest) == Went(slot, 0)
    ensures rest != [] && Names(f, rest[0]) ==> DecField(f, slot, rest) == Enter(f, slot, rest)
  {
    hide Names, Takes, Enter;
    if rest != [] {
      GuardsExact(f, rest[0]);
    }
  }
}
