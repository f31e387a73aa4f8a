/** Reading undoes writing: for whole records of any depth, for every mixture
    of length forms, into a new object or an existing one. */
module RoundTrip {
  import opened Octets
  import opened Header
  import opened Schema
  import opened Encode
  import opened Decode
  import opened Grammar
  import opened Guards

  // --------------------------------------------- reading into an old object

  /** Object `v` laid over the one the caller passed in: a field that is set in
      `v` replaces the old one, a record is filled field by field, and a field
      that is NULL in `v` keeps its old object. */
  function Over(t: Type, slot: Slot, v: Value): Value
    decreases t, 1
  {
    if t.Record? && v.Struct? && |v.fields| == |t.fields|
    then Struct(OverFields(t.fields, Target(t.fields, slot), v.fields))
    else v
  }

  function OverFields(fs: seq<Field>, was: seq<Slot>, now: seq<Slot>): (r: seq<Slot>)
    requires |fs| == |was| == |now|
    ensures |r| == |fs|
    decreases fs, 0
  {
    if fs == [] then []
    else [OverField(fs[0], was[0], now[0])] + OverFields(fs[1..], was[1..], now[1..])
  }

  function OverField(f: Field, was: Slot, now: Slot): Slot
    decreases f, 1
  {
    if now.None? then was else Some(Over(f.t, was, now.value))
  }

  /** Into a new object nothing is laid over. */
  lemma {:induction false} OverNothing(t: Type, v: Value)
    ensures Over(t, None, v) == v
    decreases t, 1
  {
    if t.Record? && v.Struct? && |v.fields| == |t.fields| {
      OverEmpty(t.fields, Target(t.fields, None), v.fields);
    }
  }

  lemma {:induction false} OverEmpty(fs: seq<Field>, was: seq<Slot>, now: seq<Slot>)
    requires |fs| == |was| == |now| && forall i | 0 <= i < |was| :: was[i] == None
    ensures OverFields(fs, was, now) == now
    decreases fs, 0
  {
    if fs != [] {
      if now[0].Some? {
        var t := fs[0].t;
        assert t < fs[0];
        OverNothing(t, now[0].value);
      }
      OverEmpty(fs[1..], was[1..], now[1..]);
    }
  }

  // ------------------------------------------------------------- round trip

  /** What follows the contents, as the reader sees it. */
  function Tail(indefinite: bool, rest: bytes): bytes {
    if indefinite then END_OF_CONTENTS + rest else []
  }

  /** The octets a wrapper needs after its contents. */
  function Closing(indefinite: bool): nat {
    if indefinite then 2 else 0
  }

  lemma DefiniteHead(tag: Tag, cls: Class, body: bytes, form: LengthForm, rest: bytes)
    requires !form.Indefinite? && Within(form, ROOM) && |body| <= LONG_MAX
    requires cls == UNIVERSAL ==> tag <= MAX_UNIVERSAL
    ensures var w, h := Wrap(tag, cls, body, form) + rest, HeaderIn(form, |body|, tag, cls);
            && GetObject(w) == Head(|h|, true, false, cls, tag, |body|)
            && w[|h|..|h| + |body|] == body
  {
    var h := HeaderIn(form, |body|, tag, cls);
    HeaderInRoundTrip(form, |body|, tag, cls, body + rest);
    hide HeaderIn, GetObject;
    assert h + body + [] == h + body;
    Slices(h, body, rest);
  }

  lemma IndefiniteHead(tag: Tag, cls: Class, body: bytes, rest: bytes)
    requires (cls == UNIVERSAL ==> tag <= MAX_UNIVERSAL) && |body| <= LONG_MAX
    ensures var w, h := Wrap(tag, cls, body, Indefinite) + rest, HeaderIn(Indefinite, |body|, tag, cls);
            && GetObject(w) == Head(|h|, true, true, cls, tag, 0)
            && w[|h|..] == body + (END_OF_CONTENTS + rest)
  {
    var h := HeaderIn(Indefinite, |body|, tag, cls);
    HeaderInRoundTrip(Indefinite, |body|, tag, cls, body + (END_OF_CONTENTS + rest));
    hide HeaderIn, GetObject;
    Regroup(h, body, END_OF_CONTENTS, rest);
    Slices(h, body, END_OF_CONTENTS + rest);
  }

  /** A header whose length there is room for is read back and leads to its
      contents. */
  lemma WrapRoundTrip(tag: Tag, cls: Class, body: bytes, form: LengthForm, rest: bytes)
    requires Within(form, ROOM) && (cls == UNIVERSAL ==> tag <= MAX_UNIVERSAL) && |body| <= LONG_MAX
    ensures var w, indefinite := Wrap(tag, cls, body, form), form.Indefinite?;
            var h := GetObject(w + rest);
            && h.Head? && h == Head(|w| - |body| - Closing(indefinite), true, indefinite, cls, tag, h.len)
            && Content(h, w + rest) == body + Tail(indefinite, rest)
            && Finish(indefinite, body + Tail(indefinite, rest), |body|) == Some(|body| + Closing(indefinite))
  {
    hide GetObject, HeaderIn;
    if form.Indefinite? {
      IndefiniteHead(tag, cls, body, rest);
      assert (body + Tail(true, rest))[|body|..] == END_OF_CONTENTS + rest;
    } else {
      DefiniteHead(tag, cls, body, form, rest);
      assert body + Tail(false, rest) == body;
    }
  }

  /** For every type, object and encoding of it with no length in more octets
      than there is room for: d2i reads the object, takes exactly that encoding
      and ignores what follows. */
  lemma {:induction false} ObjectRoundTrip(t: Type, slot: Slot, v: Value, e: bytes, rest: bytes)
    requires WellTagged(t) && IsBer(t, v, e, ROOM) && |e| <= LONG_MAX
    ensures Dec(t, slot, e + rest) == Done(Over(t, slot, v), |e|)
    decreases t, 1
  {
    hide Dec, Wrap, Target, Tail;
    match t
    case Leaf(_) => LeafRoundTrip(t, slot, v, e, rest, ROOM);
    case Record(fs) =>
      var body: bytes :| IsWrapped(e, SEQUENCE, UNIVERSAL, body, ROOM) && AreBerFields(fs, v.fields, body, ROOM);
      var form: LengthForm :| Within(form, ROOM) && e == Wrap(SEQUENCE, UNIVERSAL, body, form);
      TailIsEnd(form.Indefinite?, rest);
      FieldsMatch(fs, v.fields, body, ROOM);
      FieldsRoundTrip(fs, Target(fs, slot), v.fields, body, Tail(form.Indefinite?, rest));
      RecordContents(fs, slot, OverFields(fs, Target(fs, slot), v.fields), body, form, rest);
    case List(elem, _, tag, cls) =>
      var body: bytes :| IsWrapped(e, tag, cls, body, ROOM) && AreBerItems(elem, v.items, body, ROOM);
      var form: LengthForm :| Within(form, ROOM) && e == Wrap(tag, cls, body, form);
      TailIsEnd(form.Indefinite?, rest);
      ItemsRoundTrip(elem, v.items, body, Tail(form.Indefinite?, rest), form.Indefinite?);
      ListContents(t, slot, v.items, body, form, rest);
  }

  lemma FieldsMatch(fs: seq<Field>, slots: seq<Slot>, e: bytes, most: nat)
    requires AreBerFields(fs, slots, e, most)
    ensures |fs| == |slots|
  {
  }

  lemma LeafRoundTrip(t: Type, slot: Slot, v: Value, e: bytes, rest: bytes, most: nat)
    requires t.Leaf? && IsBer(t, v, e, most)
    ensures Dec(t, slot, e + rest) == Done(v, |e|)
  {
    assert StopsThere(t.codec, e, rest);
  }

  lemma RecordContents(fs: seq<Field>, slot: Slot, out: seq<Slot>, body: bytes, form: LengthForm, rest: bytes)
    requires Within(form, ROOM) && |body| <= LONG_MAX
    requires DecFields(fs, Target(fs, slot), body + Tail(form.Indefinite?, rest)) == FieldsRead(out, |body|)
    ensures var w := Wrap(SEQUENCE, UNIVERSAL, body, form);
            Dec(Record(fs), slot, w + rest) == Done(Struct(out), |w|)
  {
    hide GetObject, Wrap, Content, Finish, DecFields, Target, Tail;
    WrapRoundTrip(SEQUENCE, UNIVERSAL, body, form, rest);
  }

  lemma ListContents(t: Type, slot: Slot, xs: seq<Value>, body: bytes, form: LengthForm, rest: bytes)
    requires Within(form, ROOM) && |body| <= LONG_MAX
    requires t.List? && (t.cls == UNIVERSAL ==> t.tag <= MAX_UNIVERSAL)
    requires var indefinite := form.Indefinite?;
             DecItems(t.elem, indefinite, body + Tail(indefinite, rest))
             == ElementsRead(xs, |body| + Closing(indefinite))
    ensures var w := Wrap(t.tag, t.cls, body, form);
            Dec(t, slot, w + rest) == Done(Items(xs), |w|)
  {
    hide GetObject, Wrap, Content, Finish, DecItems, Tail;
    WrapRoundTrip(t.tag, t.cls, body, form, rest);
  }

  lemma TailIsEnd(indefinite: bool, rest: bytes)
    ensures IsEnd(indefinite, Tail(indefinite, rest))
  {
  }

  /** The contents are over: nothing is left, or the end-of-contents is next. */
  predicate IsEnd(indefinite: bool, tail: bytes) {
    if indefinite then AtEndOfContents(tail) else tail == []
  }

  lemma {:induction false} ItemsRoundTrip(elem: Type, xs: seq<Value>, e: bytes, tail: bytes, indefinite: bool)
    requires WellTagged(elem) && AreBerItems(elem, xs, e, ROOM) && |e| <= LONG_MAX
    requires IsEnd(indefinite, tail)
    ensures DecItems(elem, indefinite, e + tail) == ElementsRead(xs, |e| + Closing(indefinite))
    decreases elem, 2, |xs|
  {
    hide IsBer, Dec, DecItems, Over, IsEnd, WellTagged, Closing;
    if xs == [] {
      assert e + tail == tail;
      NoItem(elem, tail, indefinite);
    } else {
      var k: nat :| ItemEndsAt(elem, xs, e, k, ROOM);
      ObjectRoundTrip(elem, None, xs[0], e[..k], e[k..] + tail);
      ItemsRoundTrip(elem, xs[1..], e[k..], tail, indefinite);
      FirstItem(elem, xs, e, k, tail, indefinite);
    }
  }

  lemma NoItem(elem: Type, tail: bytes, indefinite: bool)
    requires IsEnd(indefinite, tail)
    ensures DecItems(elem, indefinite, tail) == ElementsRead([], Closing(indefinite))
  {
    hide Dec;
  }

  lemma FirstItem(elem: Type, xs: seq<Value>, e: bytes, k: nat, tail: bytes, indefinite: bool)
    requires xs != [] && k <= |e| && IsBer(elem, xs[0], e[..k], ROOM)
    requires Dec(elem, None, e[..k] + (e[k..] + tail)) == Done(Over(elem, None, xs[0]), k)
    requires DecItems(elem, indefinite, e[k..] + tail) == ElementsRead(xs[1..], |e| - k + Closing(indefinite))
    ensures DecItems(elem, indefinite, e + tail) == ElementsRead(xs, |e| + Closing(indefinite))
  {
    hide IsBer, Dec, DecItems, Over, Starts, Closing;
    OverNothing(elem, xs[0]);
    StartsProperly(elem, xs[0], e[..k], ROOM);
    StartsNonzero(elem, e[0]);
    SplitAt(e, k, tail);
    NextItem(elem, indefinite, e + tail, xs[0], k);
  }

  lemma SplitAt(e: bytes, k: nat, tail: bytes)
    requires k <= |e|
    ensures e + tail == e[..k] + (e[k..] + tail) && (e + tail)[k..] == e[k..] + tail
  {
  }

  /** An encoding begins with an identifier octet of its type. */
  lemma StartsProperly(t: Type, v: Value, e: bytes, most: nat)
    requires IsBer(t, v, e, most)
    ensures e != [] && Starts(t, e[0])
  {
  }

  lemma NextItem(e: Type, indefinite: bool, w: bytes, x: Value, n: nat)
    requires w != [] && w[0] != 0 && Dec(e, None, w) == Done(x, n)
    ensures DecItems(e, indefinite, w) == match DecItems(e, indefinite, w[n..])
                                          case ElementsStop => ElementsStop
                                          case ElementsRead(xs, m) => ElementsRead([x] + xs, n + m)
  {
    hide Dec;
  }

  lemma StartsNonzero(t: Type, b: byte)
    requires Starts(t, b)
    ensures b != 0
  {
  }

  /** With tags that can be told apart, the get macros of a record read the
      fields one by one and skip the absent ones. */
  lemma {:induction false} FieldsRoundTrip(fs: seq<Field>, was: seq<Slot>, now: seq<Slot>, e: bytes, tail: bytes)
    requires WellTaggedFields(fs) && |was| == |fs| == |now| && AreBerFields(fs, now, e, ROOM) && |e| <= LONG_MAX
    requires IsEnd(true, tail) || IsEnd(false, tail)
    ensures DecFields(fs, was, e + tail) == FieldsRead(OverFields(fs, was, now), |e|)
    decreases fs, 0
  {
    hide IsBerField, DecField, OverField, Takes, Names, Enters, Follows, WellTaggedField, IsEnd;
    if fs != [] {
      var k: nat :| FieldEndsAt(fs, now, e, k, ROOM);
      AbsentIsSkipped(fs, now, k, e, tail, ROOM);
      FieldRoundTrip(fs[0], was[0], now[0], e[..k], e[k..] + tail);
      FieldsRoundTrip(fs[1..], was[1..], now[1..], e[k..], tail);
      SplitAt(e, k, tail);
    }
  }

  /** No guard takes the octet that comes after an absent field. */
  lemma AbsentIsSkipped(fs: seq<Field>, slots: seq<Slot>, k: nat, e: bytes, tail: bytes, most: nat)
    requires fs != [] && |fs| == |slots| && WellTaggedFields(fs)
    requires FieldEndsAt(fs, slots, e, k, most)
    requires IsEnd(true, tail) || IsEnd(false, tail)
    ensures slots[0].None? ==> !Enters(fs[0], e[k..] + tail)
  {
    hide IsBer, Takes, Names;
    FirstOctet(fs[1..], slots[1..], e[k..], most);
    var rest := e[k..] + tail;
    if rest != [] {
      GuardsExact(fs[0], rest[0]);
    }
    if !fs[0].Plain? {
      ZeroIsNoName(fs[0]);
    }
  }

  /** No field is known by the octet of an end-of-contents. */
  lemma ZeroIsNoName(f: Field)
    requires WellTaggedField(f) && !f.Plain?
    ensures !Names(f, 0)
  {
  }

  lemma {:induction false} FirstOctet(fs: seq<Field>, slots: seq<Slot>, e: bytes, most: nat)
    requires AreBerFields(fs, slots, e, most)
    ensures e != [] ==> Follows(fs, e[0])
  {
    hide IsBerField, Leads;
    if fs != [] {
      var k: nat :| FieldEndsAt(fs, slots, e, k, most);
      FirstOctet(fs[1..], slots[1..], e[k..], most);
      FieldLeads(fs[0], slots[0], e[..k], most);
    }
  }

  lemma FieldLeads(f: Field, slot: Slot, e: bytes, most: nat)
    requires IsBerField(f, slot, e, most)
    ensures if slot.None? then e == [] && !f.Plain? else e != [] && Leads(f, e[0])
  {
    hide IsBer;
    if slot.Some? && !f.ImpOpt? && !f.ExpOpt? {
      StartsProperly(f.t, slot.value, e, most);
    }
  }

  lemma {:induction false} FieldRoundTrip(f: Field, was: Slot, now: Slot, e: bytes, rest: bytes)
    requires WellTaggedField(f) && IsBerField(f, now, e, ROOM) && |e| <= LONG_MAX
    requires now.None? ==> !Enters(f, rest)
    ensures DecField(f, was, e + rest) == Went(OverField(f, was, now), |e|)
    decreases f, 1
  {
    if now.None? {
      assert e + rest == rest;
    } else {
      var t, v := f.t, now.value;
      match f
      case ImpOpt(_, tag, typ) =>
        var inner: bytes :| IsRetagged(e, inner, tag, typ) && IsBer(t, v, inner, ROOM);
        ObjectRoundTrip(t, was, v, inner, rest);
        ImplicitRoundTrip(f, was, inner, Over(t, was, v), rest);
      case ExpOpt(_, mtag) =>
        var inner: bytes :| IsWrapped(e, mtag, CONTEXT_SPECIFIC, inner, ROOM) && IsBer(t, v, inner, ROOM);
        var form: LengthForm :| Within(form, ROOM) && e == Wrap(mtag, CONTEXT_SPECIFIC, inner, form);
        ObjectRoundTrip(t, was, v, inner, HeldBack(form.Indefinite?, rest));
        ExplicitRoundTrip(t, mtag, was, inner, Over(t, was, v), form, rest);
      case _ =>
        ObjectRoundTrip(t, was, v, e, rest);
        UntaggedRoundTrip(f, was, v, e, rest);
    }
  }

  lemma UntaggedRoundTrip(f: Field, was: Slot, v: Value, e: bytes, rest: bytes)
    requires f.Plain? || f.Opt? || f.ListOpt?
    requires WellTaggedField(f) && IsBer(f.t, v, e, ROOM)
    requires Dec(f.t, was, e + rest) == Done(Over(f.t, was, v), |e|)
    ensures DecField(f, was, e + rest) == Went(Some(Over(f.t, was, v)), |e|)
  {
    hide Dec, IsBer, Over;
    StartsProperly(f.t, v, e, ROOM);
  }

  lemma ImplicitRoundTrip(f: Field, was: Slot, e: bytes, v: Value, rest: bytes)
    requires f.ImpOpt? && e != [] && WithoutConstructed(e[0]) == f.typ
    requires Dec(f.t, was, e + rest) == Done(v, |e|)
    ensures DecField(f, was, Retag(e, f.tag) + rest) == Went(Some(v), |e|)
  {
    hide Dec;
    RetagUntag(e, rest, f.tag, f.typ);
  }

  /** What the d2i inside an EXPLICIT tag sees after its own octets. */
  function HeldBack(indefinite: bool, rest: bytes): bytes {
    Tail(indefinite, rest)[..if indefinite then |rest| else 0]
  }

  /** The EXPLICIT step reads a wrapper in any length form there is room for when
      its guard takes the wrapper's tag: the two octets held back of an indefinite one are there
      for the check after the inner d2i. */
  lemma ExplicitRoundTrip(t: Type, tag: Tag, was: Slot, e: bytes, v: Value, form: LengthForm, rest: bytes)
    requires Within(form, ROOM) && IsGuarded(CONTEXT_SPECIFIC, tag) && |e| <= LONG_MAX
    requires Dec(t, was, e + HeldBack(form.Indefinite?, rest)) == Done(v, |e|)
    ensures var w := Wrap(tag, CONTEXT_SPECIFIC, e, form);
            DecField(ExpOpt(t, tag), was, w + rest) == Went(Some(v), |w|)
  {
    hide Dec, GetObject, Wrap, AtEndOfContents, Inside, Content, Finish, DecField;
    var w := Wrap(tag, CONTEXT_SPECIFIC, e, form) + rest;
    WrapRoundTrip(tag, CONTEXT_SPECIFIC, e, form, rest);
    InsideContent(GetObject(w), w, e, rest);
    EnterExplicit(t, tag, was, w, v, |e|);
  }

  lemma EnterExplicit(t: Type, tag: Tag, was: Slot, w: bytes, v: Value, n: nat)
    requires w != [] && w[0] == GuardNumber(CONTEXT_SPECIFIC, tag)
    requires var h := GetObject(w);
             && h.Head? && Dec(t, was, Inside(h, w)) == Done(v, n)
             && (h.indefinite ==> AtEndOfContents(w[h.size + n..]))
    ensures var h := GetObject(w);
            DecField(ExpOpt(t, tag), was, w) == Went(Some(v), h.size + n + Closing(h.indefinite))
  {
    hide Dec, GetObject, AtEndOfContents, Inside;
  }

  lemma InsideContent(h: Head, w: bytes, e: bytes, rest: bytes)
    requires h.Head? && h.size + h.len <= |w|
    requires Content(h, w) == e + Tail(h.indefinite, rest)
    ensures Inside(h, w) == e + HeldBack(h.indefinite, rest)
    ensures h.size + |e| <= |w| && (h.indefinite ==> AtEndOfContents(w[h.size + |e|..]))
  {
    if h.indefinite {
      IndefiniteInside(w, h.size, e, END_OF_CONTENTS + rest);
    } else {
      assert HeldBack(false, rest) == [] == Tail(false, rest);
    }
  }

  lemma IndefiniteInside(w: bytes, size: nat, e: bytes, more: bytes)
    requires size <= |w| && w[size..] == e + more && |more| >= 2
    ensures size <= |w| - 2 && w[size..|w| - 2] == e + more[..|more| - 2]
    ensures size + |e| <= |w| && w[size + |e|..] == more
  {
    DropTwice(w, size, |e|);
    assert w[size..|w| - 2] == w[size..][..|e| + |more| - 2];
  }

  /** IMPLICIT tagging undoes itself (section 8.14 of X.690): the guard takes
      the octet put_IMP_opt wrote, and get_imp rebuilds the octet the inner i2d
      wrote, in an encoding of the same length. */
  lemma RetagUntag(e: bytes, rest: bytes, tag: LowTag, typ: LowTag)
    requires e != [] && WithoutConstructed(e[0]) == typ
    ensures var w := Retag(e, tag) + rest;
            && WithoutConstructed(w[0]) == CONTEXT_SPECIFIC + tag
            && Untag(w, typ) == e + rest
            && |Retag(e, tag)| == |e|
  {
    hide ConstructedBit;
    var w := Retag(e, tag) + rest;
    assert Untag(w, typ)[0] == e[0];
    assert Untag(w, typ)[1..] == e[1..] + rest;
  }

  // -------------------------------------- encodings with chosen length forms

  /** Whatever the length forms, the function gives an encoding of the object,
      with no more length octets than the forms ask for. */
  lemma {:induction false} BerIsBer(t: Type, v: Value, form: Form, at: seq<nat>, most: nat)
    requires WellTagged(t) && Fits(t, v) && Complete(t, v)
    requires most >= MOST || FormsWithin(t, v, form, at, most)
    ensures IsBer(t, v, Ber(t, v, form, at), most)
    decreases t, 1
  {
    hide Wrap;
    match t
    case Leaf(c) => assert WritesBack(c, v.contents);
    case Record(fs) =>
      BerFieldsAreBer(fs, v.fields, form, at, most);
      assert IsWrapped(Ber(t, v, form, at), SEQUENCE, UNIVERSAL, BerFields(fs, v.fields, form, at), most);
    case List(elem, _, tag, cls) =>
      BerItemsAreBer(elem, v.items, form, at, most);
      assert IsWrapped(Ber(t, v, form, at), tag, cls, BerItems(elem, v.items, form, at), most);
  }

  lemma {:induction false} BerItemsAreBer(elem: Type, xs: seq<Value>, form: Form, at: seq<nat>, most: nat)
    requires WellTagged(elem) && (forall x <- xs :: Fits(elem, x)) && (forall x <- xs :: Complete(elem, x))
    requires most >= MOST || ItemsWithin(elem, xs, form, at, most)
    ensures AreBerItems(elem, xs, BerItems(elem, xs, form, at), most)
    decreases elem, 2, |xs|
  {
    hide IsBer, Ber, Fits, Complete, FormsWithin;
    if xs != [] {
      BerIsBer(elem, xs[0], form, at + [|xs|], most);
      BerItemsAreBer(elem, xs[1..], form, at, most);
      var head, more := Ber(elem, xs[0], form, at + [|xs|]), BerItems(elem, xs[1..], form, at);
      assert (head + more)[..|head|] == head && (head + more)[|head|..] == more;
      assert ItemEndsAt(elem, xs, head + more, |head|, most);
    }
  }

  lemma {:induction false} BerFieldsAreBer(fs: seq<Field>, slots: seq<Slot>, form: Form, at: seq<nat>, most: nat)
    requires WellTaggedFields(fs) && FitsFields(fs, slots) && CompleteFields(fs, slots)
    requires most >= MOST || FieldsWithin(fs, slots, form, at, most)
    ensures AreBerFields(fs, slots, BerFields(fs, slots, form, at), most)
    decreases fs, 0
  {
    hide IsBerField, BerField, FieldWithin;
    if fs != [] {
      BerFieldIsBer(fs[0], slots[0], form, at + [|fs|], most);
      BerFieldsAreBer(fs[1..], slots[1..], form, at, most);
      var head, more := BerField(fs[0], slots[0], form, at + [|fs|]), BerFields(fs[1..], slots[1..], form, at);
      assert (head + more)[..|head|] == head && (head + more)[|head|..] == more;
      assert FieldEndsAt(fs, slots, head + more, |head|, most);
    }
  }

  lemma {:induction false} BerFieldIsBer(f: Field, slot: Slot, form: Form, at: seq<nat>, most: nat)
    requires WellTaggedField(f) && FitsField(f, slot) && CompleteField(f, slot)
    requires most >= MOST || FieldWithin(f, slot, form, at, most)
    ensures IsBerField(f, slot, BerField(f, slot, form, at), most)
    decreases f, 1
  {
    hide Wrap;
    if slot.Some? {
      BerIsBer(f.t, slot.value, form, at + [0], most);
    }
  }

  /** When every form stays within `most`, the forms that are used do. */
  lemma {:induction false} EveryFormWithin(t: Type, v: Value, form: Form, at: seq<nat>, most: nat)
    requires Fits(t, v) && forall p :: Within(form(p), most)
    ensures FormsWithin(t, v, form, at, most)
    decreases t, 1
  {
    match t
    case Leaf(_) =>
    case Record(fs) => EveryFieldWithin(fs, v.fields, form, at, most);
    case List(elem, _, _, _) => EveryItemWithin(elem, v.items, form, at, most);
  }

  lemma {:induction false} EveryItemWithin(elem: Type, xs: seq<Value>, form: Form, at: seq<nat>, most: nat)
    requires (forall x <- xs :: Fits(elem, x)) && forall p :: Within(form(p), most)
    ensures ItemsWithin(elem, xs, form, at, most)
    decreases elem, 2, |xs|
  {
    if xs != [] {
      EveryFormWithin(elem, xs[0], form, at + [|xs|], most);
      EveryItemWithin(elem, xs[1..], form, at, most);
    }
  }

  lemma {:induction false} EveryFieldWithin(fs: seq<Field>, slots: seq<Slot>, form: Form, at: seq<nat>, most: nat)
    requires FitsFields(fs, slots) && forall p :: Within(form(p), most)
    ensures FieldsWithin(fs, slots, form, at, most)
    decreases fs, 1
  {
    if fs != [] {
      OneFieldWithin(fs[0], slots[0], form, at + [|fs|], most);
      EveryFieldWithin(fs[1..], slots[1..], form, at, most);
    }
  }

  lemma {:induction false} OneFieldWithin(f: Field, slot: Slot, form: Form, at: seq<nat>, most: nat)
    requires FitsField(f, slot) && forall p :: Within(form(p), most)
    ensures FieldWithin(f, slot, form, at, most)
    decreases f, 1
  {
    if slot.Some? {
      EveryFormWithin(f.t, slot.value, form, at + [0], most);
    }
  }
}
