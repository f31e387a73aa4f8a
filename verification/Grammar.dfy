/** The encodings that section 8 of X.690 allows, for the types of the macros:
    as a function of freely chosen length forms, and as a relation between
    objects and octets. */
module Grammar {
  import opened Octets
  import opened Header
  import opened Schema
  import opened Encode
  import opened Decode

  // -------------------------------------------------- basic encoding rules

  /** The length form of each constructed encoding, by its place. */
  type Form = seq<nat> -> LengthForm

  function Wrap(tag: Tag, cls: Class, body: bytes, form: LengthForm): (r: bytes)
    ensures r != [] && IsIdentifier(r[0], cls, tag) && |body| < |r|
  {
    HeaderIn(form, |body|, tag, cls) + body + if form.Indefinite? then END_OF_CONTENTS else []
  }

  /** An encoding of `v` as section 8 of X.690 allows it: every field that is
      set is written, lists keep their order, and each constructed encoding has
      the length form that `form` picks for it. */
  function Ber(t: Type, v: Value, form: Form, at: seq<nat>): (r: bytes)
    requires Fits(t, v)
    ensures r != [] && Starts(t, r[0])
    decreases t, 1
  {
    match t
    case Leaf(c) =>
      assert WritesBack(c, v.contents);
      c.enc(v.contents)
    case Record(fs) => Wrap(SEQUENCE, UNIVERSAL, BerFields(fs, v.fields, form, at), form(at))
    case List(e, _, tag, cls) => Wrap(tag, cls, BerItems(e, v.items, form, at), form(at))
  }

  function BerItems(e: Type, xs: seq<Value>, form: Form, at: seq<nat>): bytes
    requires forall x <- xs :: Fits(e, x)
    decreases e, 2, |xs|
  {
    if xs == [] then [] else Ber(e, xs[0], form, at + [|xs|]) + BerItems(e, xs[1..], form, at)
  }

  function BerFields(fs: seq<Field>, slots: seq<Slot>, form: Form, at: seq<nat>): bytes
    requires FitsFields(fs, slots)
    decreases fs, 0
  {
    if fs == [] then []
    else BerField(fs[0], slots[0], form, at + [|fs|]) + BerFields(fs[1..], slots[1..], form, at)
  }

  function BerField(f: Field, slot: Slot, form: Form, at: seq<nat>): (r: bytes)
    requires FitsField(f, slot)
    ensures slot.Some? ==> r != [] && Leads(f, r[0])
    decreases f, 1
  {
    if slot.None? then []
    else
      var e := Ber(f.t, slot.value, form, at + [0]);
      match f
      case Plain(_) => e
      case Opt(_, _) => e
      case ListOpt(_) => e
      case ImpOpt(_, tag, _) => Retag(e, tag)
      case ExpOpt(_, mtag) => Wrap(mtag, CONTEXT_SPECIFIC, e, form(at))
  }

  /** No form that the encoding picks asks for more octets than `most`. */
  ghost predicate FormsWithin(t: Type, v: Value, form: Form, at: seq<nat>, most: nat)
    requires Fits(t, v)
    decreases t, 1
  {
    match t
    case Leaf(_) => true
    case Record(fs) => Within(form(at), most) && FieldsWithin(fs, v.fields, form, at, most)
    case List(e, _, _, _) => Within(form(at), most) && ItemsWithin(e, v.items, form, at, most)
  }

  ghost predicate ItemsWithin(e: Type, xs: seq<Value>, form: Form, at: seq<nat>, most: nat)
    requires forall x <- xs :: Fits(e, x)
    decreases e, 2, |xs|
  {
    xs != [] ==> FormsWithin(e, xs[0], form, at + [|xs|], most) && ItemsWithin(e, xs[1..], form, at, most)
  }

  ghost predicate FieldsWithin(fs: seq<Field>, slots: seq<Slot>, form: Form, at: seq<nat>, most: nat)
    requires FitsFields(fs, slots)
    decreases fs, 0
  {
    fs != [] ==>
      FieldWithin(fs[0], slots[0], form, at + [|fs|], most) && FieldsWithin(fs[1..], slots[1..], form, at, most)
  }

  ghost predicate FieldWithin(f: Field, slot: Slot, form: Form, at: seq<nat>, most: nat)
    requires FitsField(f, slot)
    decreases f, 1
  {
    slot.Some? ==>
      FormsWithin(f.t, slot.value, form, at + [0], most) && (f.ExpOpt? ==> Within(form(at), most))
  }

  // -------------------------------------------------------------- a relation

  /** `e` is a constructed encoding with contents `body`, its length in any form
      of at most so many octets. */
  ghost predicate IsWrapped(e: bytes, tag: Tag, cls: Class, body: bytes, most: nat) {
    exists form: LengthForm :: Within(form, most) && e == Wrap(tag, cls, body, form)
  }

  /** `e` is the encoding `inner` of a type with tag `typ`, under an IMPLICIT tag. */
  predicate IsRetagged(e: bytes, inner: bytes, tag: LowTag, typ: LowTag) {
    inner != [] && WithoutConstructed(inner[0]) == typ && e == Retag(inner, tag)
  }

  /** `e` is an encoding of `v` with no length in more than `most` octets; for
      `MOST` that is every encoding section 8 of X.690 allows. The encodings of
      a leaf are those that its own type reads. */
  ghost predicate IsBer(t: Type, v: Value, e: bytes, most: nat)
    decreases t, 1
  {
    match t
    case Leaf(c) => v.Atom? && e != [] && c.starts(e[0]) && c.dec(e) == Some((v.contents, |e|))
    case Record(fs) =>
      v.Struct? && exists body: bytes ::
                     IsWrapped(e, SEQUENCE, UNIVERSAL, body, most) && AreBerFields(fs, v.fields, body, most)
    case List(elem, _, tag, cls) =>
      v.Items? && exists body: bytes ::
                    IsWrapped(e, tag, cls, body, most) && AreBerItems(elem, v.items, body, most)
  }

  /** `e` holds an encoding of each object in turn. */
  ghost predicate AreBerItems(elem: Type, xs: seq<Value>, e: bytes, most: nat)
    decreases elem, 2, |xs|, 1
  {
    if xs == [] then e == [] else exists k: nat :: ItemEndsAt(elem, xs, e, k, most)
  }

  /** The first of them takes `k` octets. */
  ghost predicate ItemEndsAt(elem: Type, xs: seq<Value>, e: bytes, k: nat, most: nat)
    requires xs != []
    decreases elem, 2, |xs|, 0
  {
    k <= |e| && IsBer(elem, xs[0], e[..k], most) && AreBerItems(elem, xs[1..], e[k..], most)
  }

  ghost predicate AreBerFields(fs: seq<Field>, slots: seq<Slot>, e: bytes, most: nat)
    decreases fs, 1
  {
    && |fs| == |slots|
    && if fs == [] then e == [] else exists k: nat :: FieldEndsAt(fs, slots, e, k, most)
  }

  ghost predicate FieldEndsAt(fs: seq<Field>, slots: seq<Slot>, e: bytes, k: nat, most: nat)
    requires fs != [] && |fs| == |slots|
    decreases fs, 0
  {
    k <= |e| && IsBerField(fs[0], slots[0], e[..k], most) && AreBerFields(fs[1..], slots[1..], e[k..], most)
  }

  /** `e` is what the field contributes: nothing when it is NULL, and otherwise
      its encoding under the tagging of the field (section 8.14 of X.690). */
  ghost predicate IsBerField(f: Field, slot: Slot, e: bytes, most: nat)
    decreases f, 1
  {
    if slot.None? then e == [] && !f.Plain?
    else match f
      case ImpOpt(t, tag, typ) =>
        exists inner: bytes :: IsRetagged(e, inner, tag, typ) && IsBer(t, slot.value, inner, most)
      case ExpOpt(t, mtag) =>
        exists inner: bytes :: IsWrapped(e, mtag, CONTEXT_SPECIFIC, inner, most) && IsBer(t, slot.value, inner, most)
      case _ => IsBer(f.t, slot.value, e, most)
  }

  // ----------------------------------------------- the same, on octets alone

  /** A walk over the octets that looks at headers and guards only: every
      identifier is in its proper form, and every definite EXPLICIT wrapper is
      filled by the one encoding inside it. */
  ghost predicate Proper(t: Type, w: bytes)
    decreases t, 1
  {
    match t
    case Leaf(c) => w != [] && c.starts(w[0])
    case Record(fs) => HasHead(w, SEQUENCE, UNIVERSAL) && ProperFields(fs, Content(GetObject(w), w))
    case List(e, _, tag, cls) => HasHead(w, tag, cls) && ProperItems(e, Content(GetObject(w), w))
  }

  predicate HasHead(w: bytes, tag: Tag, cls: Class) {
    GetObject(w).Head? && HasIdentifier(w, tag, cls)
  }

  ghost predicate ProperItems(e: Type, rest: bytes)
    decreases e, 2, |rest|
  {
    if rest == [] || AtEndOfContents(rest) then true
    else Proper(e, rest) && Extent(rest).Some? && ProperItems(e, rest[Extent(rest).value..])
  }

  ghost predicate ProperFields(fs: seq<Field>, rest: bytes)
    decreases fs, 0
  {
    if fs == [] then true
    else if !Enters(fs[0], rest) then ProperFields(fs[1..], rest)
    else
      && ProperField(fs[0], rest)
      && Extent(rest).Some? && ProperFields(fs[1..], rest[Extent(rest).value..])
  }

  ghost predicate ProperField(f: Field, rest: bytes)
    requires f.Plain? || rest != []
    decreases f, 1
  {
    && Proper(f.t, Seen(f, rest))
    && (f.ExpOpt? ==>
          && HasHead(rest, f.mtag, CONTEXT_SPECIFIC)
          && var h := GetObject(rest); !h.indefinite ==> Extent(Inside(h, rest)) == Some(h.len))
  }
}
