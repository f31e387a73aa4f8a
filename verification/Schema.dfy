/** The types the macros of include/asn1_mac.h are expanded for. A schema says
    which codec each field is handed to; the macros do not interpret it in any
    other way. */
module Schema {
  import opened Octets
  import opened Header

  /** What a field codec owns: an object the macros only hand on. */
  type Contents = seq<int>

  /** A pair of functions i2d_X / d2i_X for some type X: `enc` gives the octets
      that i2d writes, `dec` reads an object from a window and says how many
      octets it took. `starts` are the identifier octets of the type. */
  datatype FieldCodec = FieldCodec(
    starts: byte -> bool,
    ok: Contents -> bool,
    enc: Contents -> bytes,
    dec: bytes -> Option<(Contents, nat)>)

  /** What i2d writes begins with the identifier octet of the type, and d2i
      reads it back. */
  ghost predicate WritesBack(c: FieldCodec, a: Contents) {
    c.ok(a) ==>
      && c.enc(a) != [] && c.starts(c.enc(a)[0])
      && c.dec(c.enc(a)) == Some((a, |c.enc(a)|))
  }

  /** What d2i accepts is taken to the end of the encoding that is there, is not
      an end-of-contents, and would be accepted alone. */
  ghost predicate ReadsOne(c: FieldCodec, w: bytes) {
    var r := c.dec(w);
    r.Some? ==>
      && w != [] && w[0] != 0 && c.ok(r.value.0)
      && Extent(w) == Some(r.value.1)
      && c.dec(w[..r.value.1]) == r
  }

  /** d2i does not look at what follows an encoding. */
  ghost predicate StopsThere(c: FieldCodec, e: bytes, rest: bytes) {
    c.dec(e).Some? && c.dec(e).value.1 == |e| ==> c.dec(e + rest) == c.dec(e)
  }

  /** What the macros rely on: the type has identifier octets of its own, never
      the one of an end-of-contents, and its two functions fit together. */
  ghost predicate KeepsContract(c: FieldCodec) {
    && !c.starts(0)
    && (forall a :: WritesBack(c, a))
    && (forall w :: ReadsOne(c, w))
    && (forall e, rest :: StopsThere(c, e, rest))
  }

  /** A codec that keeps the contract. */
  type Codec = c: FieldCodec | KeepsContract(c)
    witness FieldCodec((b: byte) => false, (a: Contents) => false, (a: Contents) => [], (w: bytes) => None)

  datatype Type =
    | Leaf(codec: Codec)
      // a structure built with the macros themselves
    | Record(fields: seq<Field>)
      // SET OF or SEQUENCE OF, with the tag and class given to i2d/d2i_ASN1_SET
    | List(elem: Type, isSet: bool, tag: Tag, cls: Class)

  /** A tag that a single identifier octet holds (section 8.1.2.2 of X.690). */
  type LowTag = x: int | 0 <= x < 31

  /** One field: the macro pair that reads and writes it. */
  datatype Field =
      // get / put
    | Plain(t: Type)
      // get_opt / put of a pointer that may be NULL
    | Opt(t: Type, typ: LowTag)
      // get_IMP_opt / put_IMP_opt
    | ImpOpt(t: Type, tag: LowTag, typ: LowTag)
      // get_EXP_opt, get_EXP_set_opt / put_EXP_opt, put_EXP_SET_opt, put_EXP_SEQUENCE_opt
    | ExpOpt(t: Type, mtag: Tag)
      // get_set_opt, get_seq_opt, get_IMP_set_opt / put_SET_opt, put_SEQUENCE_opt, put_IMP_SET_opt
    | ListOpt(t: Type)

  /** Objects; a field that is NULL is `None`. */
  datatype Value =
    | Atom(contents: Contents)
    | Struct(fields: seq<Option<Value>>)
    | Items(items: seq<Value>)

  type Slot = Option<Value>

  // ------------------------------------------------------- values of a type

  /** `v` is an object of type `t`. Any field may be NULL. */
  ghost predicate Fits(t: Type, v: Value)
    decreases t, 1
  {
    match t
    case Leaf(c) => v.Atom? && c.ok(v.contents)
    case Record(fs) => v.Struct? && FitsFields(fs, v.fields)
    case List(e, _, _, _) => v.Items? && forall x <- v.items :: Fits(e, x)
  }

  ghost predicate FitsFields(fs: seq<Field>, slots: seq<Slot>)
    decreases fs, 0
  {
    && |fs| == |slots|
    && (fs == [] || (FitsField(fs[0], slots[0]) && FitsFields(fs[1..], slots[1..])))
  }

  ghost predicate FitsField(f: Field, slot: Slot)
    decreases f, 1
  {
    slot.Some? ==> Fits(f.t, slot.value)
  }

  ghost predicate FitsSlot(t: Type, slot: Slot) {
    slot.Some? ==> Fits(t, slot.value)
  }

  /** Every mandatory field is set, at every depth. */
  ghost predicate Complete(t: Type, v: Value)
    requires Fits(t, v)
    decreases t, 1
  {
    match t
    case Leaf(_) => true
    case Record(fs) => CompleteFields(fs, v.fields)
    case List(e, _, _, _) => forall x <- v.items :: Complete(e, x)
  }

  ghost predicate CompleteFields(fs: seq<Field>, slots: seq<Slot>)
    requires FitsFields(fs, slots)
    decreases fs, 0
  {
    fs == [] || (
      && CompleteField(fs[0], slots[0])
      && CompleteFields(fs[1..], slots[1..]))
  }

  ghost predicate CompleteField(f: Field, slot: Slot)
    requires FitsField(f, slot)
    decreases f, 1
  {
    if slot.Some? then Complete(f.t, slot.value) else !f.Plain?
  }

  // ------------------------------------------------- guards and first octets

  /** The class and number an identifier octet shows; 31 stands for every number
      from 31 on (section 8.1.2.4 of X.690). */
  predicate IsTagged(b: byte, cls: Class, number: nat) {
    ClassBits(b) == cls && b % 32 == number
  }

  function Shown(tag: Tag): nat {
    if tag < 31 then tag else 31
  }

  /** The tag a field is known by: does `b` show its class and number, and, where
      the field is always constructed, that bit? */
  predicate Names(f: Field, b: byte) {
    match f
    case Plain(_) => true
    case Opt(_, typ) => IsTagged(b, UNIVERSAL, typ)
    case ImpOpt(_, tag, _) => IsTagged(b, CONTEXT_SPECIFIC, tag)
    case ExpOpt(_, mtag) => IsTagged(b, CONTEXT_SPECIFIC, Shown(mtag)) && ConstructedBit(b) != 0
    case ListOpt(t) => t.List? && IsTagged(b, t.cls, Shown(t.tag)) && ConstructedBit(b) != 0
  }

  /** The first octet ASN1_put_object writes for a constructed header. */
  predicate IsIdentifier(b: byte, cls: Class, tag: nat) {
    b == cls + CONSTRUCTED + (if tag < 31 then tag else 31)
  }

  /** cls|V_ASN1_CONSTRUCTED|tag, the number the guards compare an octet with:
      the tag with the bits of the others set. */
  function GuardNumber(cls: Class, tag: Tag): nat {
    tag
    + (1 - tag / 32 % 2) * 32
    + (if cls / 64 % 2 == 1 then (1 - tag / 64 % 2) * 64 else 0)
    + (if cls / 128 == 1 then (1 - tag / 128 % 2) * 128 else 0)
  }

  /** Does the guard take the header that is written for this tag? */
  predicate IsGuarded(cls: Class, tag: Tag) {
    GuardNumber(cls, tag) == cls + CONSTRUCTED + (if tag < 31 then tag else 31)
  }

  /** The octets an encoding of `t` may begin with. */
  predicate Starts(t: Type, b: byte) {
    match t
    case Leaf(c) => c.starts(b)
    case Record(_) => IsIdentifier(b, UNIVERSAL, SEQUENCE)
    case List(_, _, tag, cls) => IsIdentifier(b, cls, tag)
  }

  /** The guard of a get macro: does it take a field that begins with `b`? */
  predicate Takes(f: Field, b: byte) {
    match f
    case Plain(_) => true
    case Opt(_, typ) => WithoutConstructed(b) == UNIVERSAL + typ
    case ImpOpt(_, tag, _) => WithoutConstructed(b) == CONTEXT_SPECIFIC + tag
    case ExpOpt(_, mtag) => b == GuardNumber(CONTEXT_SPECIFIC, mtag)
    case ListOpt(t) => t.List? && b == GuardNumber(t.cls, t.tag)
  }

  /** The octets a field that is written may begin with. */
  predicate Leads(f: Field, b: byte) {
    match f
    case Plain(t) => Starts(t, b)
    case Opt(t, _) => Starts(t, b)
    case ImpOpt(_, tag, _) => WithoutConstructed(b) == CONTEXT_SPECIFIC + tag
    case ExpOpt(_, mtag) => IsIdentifier(b, CONTEXT_SPECIFIC, mtag)
    case ListOpt(t) => Starts(t, b)
  }

  /** The octets that may come first when the fields `fs` are written. */
  predicate Follows(fs: seq<Field>, b: byte) {
    fs != [] && (Leads(fs[0], b) || (!fs[0].Plain? && Follows(fs[1..], b)))
  }

  /** The guard of the field takes the octet that is next, or there is none. */
  predicate Enters(f: Field, rest: bytes) {
    f.Plain? || (rest != [] && Takes(f, rest[0]))
  }

  /** The type argument of get_opt and get_IMP_opt is the type's own tag. */
  ghost predicate HasTag(t: Type, typ: nat) {
    0 < typ && forall b: byte | Starts(t, b) :: IsTagged(b, UNIVERSAL, typ)
  }

  /** The tags given to the macros make sense, and what may follow an absent field
      has another tag than the field. */
  ghost predicate WellTagged(t: Type)
    decreases t, 1
  {
    match t
    case Leaf(_) => true
    case Record(fs) => WellTaggedFields(fs)
    case List(e, _, tag, cls) => WellTagged(e) && (cls == UNIVERSAL ==> tag <= MAX_UNIVERSAL)
  }

  ghost predicate WellTaggedFields(fs: seq<Field>)
    decreases fs, 0
  {
    fs == [] || (
      && WellTaggedField(fs[0])
      && (!fs[0].Plain? ==> forall b: byte | Follows(fs[1..], b) :: !Names(fs[0], b))
      && WellTaggedFields(fs[1..]))
  }

  ghost predicate WellTaggedField(f: Field)
    decreases f, 1
  {
    && WellTagged(f.t)
    && match f
       case Plain(_) => true
       case Opt(t, typ) => HasTag(t, typ)
       case ImpOpt(t, _, typ) => HasTag(t, typ)
       case ExpOpt(_, mtag) => IsGuarded(CONTEXT_SPECIFIC, mtag)
       case ListOpt(t) => t.List? && IsGuarded(t.cls, t.tag)
  }
}
