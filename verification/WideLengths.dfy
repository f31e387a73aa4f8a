/** Lengths in more octets than the reader has room for. Section 8.1.3.5 of X.690
    allows up to 126 of them, and more than a length needs; asn1_get_length
    stops at the eight octets of a `long`. */
module WideLengths {
  import opened Octets
  import opened Header
  import opened Schema
  import opened Encode
  import opened Decode
  import opened Grammar
  import opened RoundTrip

  // ------------------------------------------------ one step of the reader

  lemma WideWrap(tag: Tag, cls: Class, body: bytes, form: LengthForm, rest: bytes)
    requires !Within(form, ROOM) && (cls == UNIVERSAL ==> tag <= MAX_UNIVERSAL) && |body| <= LONG_MAX
    ensures GetObject(Wrap(tag, cls, body, form) + rest) == Bad
  {
    hide GetObject, HeaderIn;
    var h := HeaderIn(form, |body|, tag, cls);
    HeaderInRoundTrip(form, |body|, tag, cls, body + rest);
    assert h + body + [] + rest == h + (body + rest);
  }

  lemma RecordStops(fs: seq<Field>, slot: Slot, body: bytes, form: LengthForm, rest: bytes)
    requires |body| <= LONG_MAX
    requires Within(form, ROOM) ==> DecFields(fs, Target(fs, slot), body + Tail(form.Indefinite?, rest)).FieldsStop?
    ensures Dec(Record(fs), slot, Wrap(SEQUENCE, UNIVERSAL, body, form) + rest).Fail?
  {
    hide GetObject, Wrap, Content, Finish, DecFields, Target, Tail;
    if Within(form, ROOM) {
      WrapRoundTrip(SEQUENCE, UNIVERSAL, body, form, rest);
    } else {
      WideWrap(SEQUENCE, UNIVERSAL, body, form, rest);
    }
  }

  lemma ListStops(t: Type, slot: Slot, body: bytes, form: LengthForm, rest: bytes)
    requires t.List? && (t.cls == UNIVERSAL ==> t.tag <= MAX_UNIVERSAL) && |body| <= LONG_MAX
    requires Within(form, ROOM) ==>
               DecItems(t.elem, form.Indefinite?, body + Tail(form.Indefinite?, rest)).ElementsStop?
    ensures Dec(t, slot, Wrap(t.tag, t.cls, body, form) + rest).Fail?
  {
    hide GetObject, Wrap, Content, Finish, DecItems, Tail;
    if Within(form, ROOM) {
      WrapRoundTrip(t.tag, t.cls, body, form, rest);
    } else {
      WideWrap(t.tag, t.cls, body, form, rest);
    }
  }

  lemma ItemStops(elem: Type, indefinite: bool, w: bytes)
    requires w != [] && w[0] != 0 && Dec(elem, None, w).Fail?
    ensures DecItems(elem, indefinite, w).ElementsStop?
  {
    hide Dec;
  }

  lemma LaterItemStops(elem: Type, indefinite: bool, w: bytes)
    requires w != [] && w[0] != 0 && Dec(elem, None, w).Done?
    requires DecItems(elem, indefinite, w[Dec(elem, None, w).n..]).ElementsStop?
    ensures DecItems(elem, indefinite, w).ElementsStop?
  {
    hide Dec;
  }

  lemma FieldStops(fs: seq<Field>, was: seq<Slot>, rest: bytes)
    requires |fs| == |was| > 0
    requires var step := DecField(fs[0], was[0], rest);
             step.Stop? || DecFields(fs[1..], was[1..], rest[step.n..]).FieldsStop?
    ensures DecFields(fs, was, rest).FieldsStop?
  {
    hide DecField;
  }

  lemma UntaggedStops(f: Field, was: Slot, e: bytes, rest: bytes)
    requires f.Plain? || f.Opt? || f.ListOpt?
    requires WellTaggedField(f) && e != [] && Starts(f.t, e[0])
    requires Dec(f.t, was, e + rest).Fail?
    ensures DecField(f, was, e + rest).Stop?
  {
    hide Dec;
  }

  lemma ImplicitStops(f: Field, was: Slot, e: bytes, rest: bytes)
    requires f.ImpOpt? && e != [] && WithoutConstructed(e[0]) == f.typ
    requires Dec(f.t, was, e + rest).Fail?
    ensures DecField(f, was, Retag(e, f.tag) + rest).Stop?
  {
    hide Dec;
    RetagUntag(e, rest, f.tag, f.typ);
  }

  lemma ExplicitStops(t: Type, tag: Tag, was: Slot, e: bytes, form: LengthForm, rest: bytes)
    requires IsGuarded(CONTEXT_SPECIFIC, tag) && |e| <= LONG_MAX
    requires Within(form, ROOM) ==> Dec(t, was, e + HeldBack(form.Indefinite?, rest)).Fail?
    ensures DecField(ExpOpt(t, tag), was, Wrap(tag, CONTEXT_SPECIFIC, e, form) + rest).Stop?
    ensures !Within(form, ROOM) ==>
              DecField(ExpOpt(t, tag), was, Wrap(tag, CONTEXT_SPECIFIC, e, form) + rest) == Stop(was)
  {
    hide Dec, GetObject, Wrap, Inside, Content, Finish;
    var w := Wrap(tag, CONTEXT_SPECIFIC, e, form) + rest;
    if Within(form, ROOM) {
      WrapRoundTrip(tag, CONTEXT_SPECIFIC, e, form, rest);
      InsideContent(GetObject(w), w, e, rest);
    } else {
      WideWrap(tag, CONTEXT_SPECIFIC, e, form, rest);
    }
  }

  // ------------------------------------------------------- every encoding

  /** An encoding with a length there is no room for, at any depth, is refused:
      the run stops at it. */
  lemma {:induction false} WideIsRefused(t: Type, slot: Slot, v: Value, e: bytes, rest: bytes)
    requires WellTagged(t) && IsBer(t, v, e, MOST) && !IsBer(t, v, e, ROOM) && |e| <= LONG_MAX
    ensures Dec(t, slot, e + rest).Fail?
    decreases t, 1
  {
    hide Dec, Wrap, Target, Tail;
    match t
    case Leaf(_) =>
    case Record(fs) =>
      var body: bytes :| IsWrapped(e, SEQUENCE, UNIVERSAL, body, MOST) && AreBerFields(fs, v.fields, body, MOST);
      var form: LengthForm :| e == Wrap(SEQUENCE, UNIVERSAL, body, form);
      if Within(form, ROOM) {
        TailIsEnd(form.Indefinite?, rest);
        FieldsMatch(fs, v.fields, body, MOST);
        WideFields(fs, Target(fs, slot), v.fields, body, Tail(form.Indefinite?, rest));
      }
      RecordStops(fs, slot, body, form, rest);
    case List(elem, _, tag, cls) =>
      var body: bytes :| IsWrapped(e, tag, cls, body, MOST) && AreBerItems(elem, v.items, body, MOST);
      var form: LengthForm :| e == Wrap(tag, cls, body, form);
      if Within(form, ROOM) {
        WideItems(elem, v.items, body, Tail(form.Indefinite?, rest), form.Indefinite?);
      }
      ListStops(t, slot, body, form, rest);
  }

  lemma {:induction false} WideItems(elem: Type, xs: seq<Value>, e: bytes, tail: bytes, indefinite: bool)
    requires WellTagged(elem) && AreBerItems(elem, xs, e, MOST) && !AreBerItems(elem, xs, e, ROOM)
    requires |e| <= LONG_MAX
    ensures DecItems(elem, indefinite, e + tail).ElementsStop?
    decreases elem, 2, |xs|
  {
    hide IsBer, Dec, DecItems, Starts, WellTagged;
    var k: nat :| ItemEndsAt(elem, xs, e, k, MOST);
    StartsProperly(elem, xs[0], e[..k], MOST);
    StartsNonzero(elem, e[0]);
    SplitAt(e, k, tail);
    if IsBer(elem, xs[0], e[..k], ROOM) {
      assert !ItemEndsAt(elem, xs, e, k, ROOM);
      ObjectRoundTrip(elem, None, xs[0], e[..k], e[k..] + tail);
      WideItems(elem, xs[1..], e[k..], tail, indefinite);
      LaterItemStops(elem, indefinite, e + tail);
    } else {
      WideIsRefused(elem, None, xs[0], e[..k], e[k..] + tail);
      ItemStops(elem, indefinite, e + tail);
    }
  }

  lemma {:induction false} WideFields(fs: seq<Field>, was: seq<Slot>, now: seq<Slot>, e: bytes, tail: bytes)
    requires WellTaggedFields(fs) && |was| == |fs| == |now| && |e| <= LONG_MAX
    requires AreBerFields(fs, now, e, MOST) && !AreBerFields(fs, now, e, ROOM)
    requires IsEnd(true, tail) || IsEnd(false, tail)
    ensures DecFields(fs, was, e + tail).FieldsStop?
    decreases fs, 0
  {
    hide IsBerField, DecField, DecFields, OverField, Takes, Follows;
    var k: nat :| FieldEndsAt(fs, now, e, k, MOST);
    SplitAt(e, k, tail);
    if IsBerField(fs[0], now[0], e[..k], ROOM) {
      assert !FieldEndsAt(fs, now, e, k, ROOM);
      AbsentIsSkipped(fs, now, k, e, tail, MOST);
      FieldRoundTrip(fs[0], was[0], now[0], e[..k], e[k..] + tail);
      WideFields(fs[1..], was[1..], now[1..], e[k..], tail);
    } else {
      WideField(fs[0], was[0], now[0], e[..k], e[k..] + tail);
    }
    FieldStops(fs, was, e + tail);
  }

  lemma {:induction false} WideField(f: Field, was: Slot, now: Slot, e: bytes, rest: bytes)
    requires WellTaggedField(f) && |e| <= LONG_MAX
    requires IsBerField(f, now, e, MOST) && !IsBerField(f, now, e, ROOM)
    ensures DecField(f, was, e + rest).Stop?
    decreases f, 1
  {
    hide IsBer, Dec, DecField, Wrap;
    var t, v := f.t, now.value;
    match f
    case ImpOpt(_, tag, typ) =>
      var inner: bytes :| IsRetagged(e, inner, tag, typ) && IsBer(t, v, inner, MOST);
      WideIsRefused(t, was, v, inner, rest);
      ImplicitStops(f, was, inner, rest);
    case ExpOpt(_, mtag) =>
      var inner: bytes :| IsWrapped(e, mtag, CONTEXT_SPECIFIC, inner, MOST) && IsBer(t, v, inner, MOST);
      var form: LengthForm :| e == Wrap(mtag, CONTEXT_SPECIFIC, inner, form);
      if Within(form, ROOM) {
        assert IsWrapped(e, mtag, CONTEXT_SPECIFIC, inner, ROOM);
        WideIsRefused(t, was, v, inner, HeldBack(form.Indefinite?, rest));
      }
      ExplicitStops(t, mtag, was, inner, form, rest);
    case _ =>
      WideIsRefused(t, was, v, e, rest);
      StartsProperly(t, v, e, MOST);
      UntaggedStops(f, was, e, rest);
  }

  /** The exact condition: of all encodings that X.690 allows, d2i reads those in
      which no length takes more than eight octets, and refuses the others. */
  lemma ReadWhenWithin(t: Type, slot: Slot, v: Value, e: bytes, rest: bytes)
    requires WellTagged(t) && IsBer(t, v, e, MOST) && |e| <= LONG_MAX
    ensures Dec(t, slot, e + rest).Done? <==> IsBer(t, v, e, ROOM)
    ensures IsBer(t, v, e, ROOM) ==> Dec(t, slot, e + rest) == Done(Over(t, slot, v), |e|)
  {
    hide IsBer, Dec;
    if IsBer(t, v, e, ROOM) {
      ObjectRoundTrip(t, slot, v, e, rest);
    } else {
      WideIsRefused(t, slot, v, e, rest);
    }
  }

  // -------------------------------------- encodings with chosen length forms

  lemma {:induction false} WideFormIsRefused(t: Type, slot: Slot, v: Value, form: Form, at: seq<nat>, rest: bytes)
    requires WellTagged(t) && Fits(t, v) && Complete(t, v)
    requires !FormsWithin(t, v, form, at, ROOM) && |Ber(t, v, form, at)| <= LONG_MAX
    ensures Dec(t, slot, Ber(t, v, form, at) + rest).Fail?
    decreases t, 1
  {
    hide Dec, Wrap, Target, Tail;
    var indefinite := form(at).Indefinite?;
    match t
    case Leaf(_) =>
    case Record(fs) =>
      if Within(form(at), ROOM) {
        TailIsEnd(indefinite, rest);
        WideFormFields(fs, Target(fs, slot), v.fields, form, at, Tail(indefinite, rest));
      }
      RecordStops(fs, slot, BerFields(fs, v.fields, form, at), form(at), rest);
    case List(elem, _, _, _) =>
      if Within(form(at), ROOM) {
        WideFormItems(elem, v.items, form, at, Tail(indefinite, rest), indefinite);
      }
      ListStops(t, slot, BerItems(elem, v.items, form, at), form(at), rest);
  }

  lemma {:induction false} WideFormItems(elem: Type, xs: seq<Value>, form: Form, at: seq<nat>,
                                         tail: bytes, indefinite: bool)
    requires WellTagged(elem) && (forall x <- xs :: Fits(elem, x)) && (forall x <- xs :: Complete(elem, x))
    requires !ItemsWithin(elem, xs, form, at, ROOM) && |BerItems(elem, xs, form, at)| <= LONG_MAX
    ensures DecItems(elem, indefinite, BerItems(elem, xs, form, at) + tail).ElementsStop?
    decreases elem, 2, |xs|
  {
    hide Ber, Dec, DecItems, Starts, WellTagged, Fits, Complete, FormsWithin, IsBer;
    var head, more := Ber(elem, xs[0], form, at + [|xs|]), BerItems(elem, xs[1..], form, at);
    StartsNonzero(elem, head[0]);
    Slices(head, more, tail);
    if FormsWithin(elem, xs[0], form, at + [|xs|], ROOM) {
      BerIsBer(elem, xs[0], form, at + [|xs|], ROOM);
      ObjectRoundTrip(elem, None, xs[0], head, more + tail);
      WideFormItems(elem, xs[1..], form, at, tail, indefinite);
      LaterItemStops(elem, indefinite, head + (more + tail));
    } else {
      WideFormIsRefused(elem, None, xs[0], form, at + [|xs|], more + tail);
      ItemStops(elem, indefinite, head + (more + tail));
    }
  }

  lemma {:induction false} WideFormFields(fs: seq<Field>, was: seq<Slot>, now: seq<Slot>,
                                          form: Form, at: seq<nat>, tail: bytes)
    requires WellTaggedFields(fs) && |was| == |fs| && FitsFields(fs, now) && CompleteFields(fs, now)
    requires !FieldsWithin(fs, now, form, at, ROOM) && |BerFields(fs, now, form, at)| <= LONG_MAX
    requires IsEnd(true, tail) || IsEnd(false, tail)
    ensures DecFields(fs, was, BerFields(fs, now, form, at) + tail).FieldsStop?
    decreases fs, 0
  {
    hide BerField, DecField, DecFields, OverField, Takes, Follows, FieldWithin, IsBerField;
    var head, more := BerField(fs[0], now[0], form, at + [|fs|]), BerFields(fs[1..], now[1..], form, at);
    Slices(head, more, tail);
    if FieldWithin(fs[0], now[0], form, at + [|fs|], ROOM) {
      BerFieldIsBer(fs[0], now[0], form, at + [|fs|], ROOM);
      BerFieldsAreBer(fs, now, form, at, MOST);
      BerFieldIsBer(fs[0], now[0], form, at + [|fs|], MOST);
      BerFieldsAreBer(fs[1..], now[1..], form, at, MOST);
      FieldsAreSplit(fs, now, head, more);
      AbsentIsSkipped(fs, now, |head|, head + more, tail, MOST);
      FieldRoundTrip(fs[0], was[0], now[0], head, more + tail);
      WideFormFields(fs[1..], was[1..], now[1..], form, at, tail);
    } else {
      WideFormField(fs[0], was[0], now[0], form, at + [|fs|], more + tail);
    }
    FieldStops(fs, was, head + (more + tail));
  }

  lemma FieldsAreSplit(fs: seq<Field>, now: seq<Slot>, head: bytes, more: bytes)
    requires |fs| == |now| > 0
    requires IsBerField(fs[0], now[0], head, MOST) && AreBerFields(fs[1..], now[1..], more, MOST)
    ensures FieldEndsAt(fs, now, head + more, |head|, MOST) && (head + more)[|head|..] == more
  {
    hide IsBerField;
    assert (head + more)[..|head|] == head && (head + more)[|head|..] == more;
  }

  lemma {:induction false} WideFormField(f: Field, was: Slot, now: Slot, form: Form, at: seq<nat>, rest: bytes)
    requires WellTaggedField(f) && FitsField(f, now) && CompleteField(f, now)
    requires !FieldWithin(f, now, form, at, ROOM) && |BerField(f, now, form, at)| <= LONG_MAX
    ensures DecField(f, was, BerField(f, now, form, at) + rest).Stop?
    decreases f, 1
  {
    hide Dec, DecField, Wrap, Fits, Complete, FormsWithin;
    var t, v, within := f.t, now.value, at + [0];
    var e := Ber(t, v, form, within);
    match f
    case ImpOpt(_, _, _) =>
      WideFormIsRefused(t, was, v, form, within, rest);
      ImplicitStops(f, was, e, rest);
    case ExpOpt(_, mtag) =>
      if Within(form(at), ROOM) {
        WideFormIsRefused(t, was, v, form, within, HeldBack(form(at).Indefinite?, rest));
      }
      ExplicitStops(t, mtag, was, e, form(at), rest);
    case _ =>
      WideFormIsRefused(t, was, v, form, within, rest);
      UntaggedStops(f, was, e, rest);
  }

  /** So d2i reads every choice of length forms, at every depth, in which no place
      that is used asks for more than eight octets, and refuses the others. */
  lemma BerRoundTrip(t: Type, slot: Slot, v: Value, form: Form, at: seq<nat>, rest: bytes)
    requires WellTagged(t) && Fits(t, v) && Complete(t, v)
    requires |Ber(t, v, form, at)| <= LONG_MAX
    ensures var r := Dec(t, slot, Ber(t, v, form, at) + rest);
            if FormsWithin(t, v, form, at, ROOM) then r == Done(Over(t, slot, v), |Ber(t, v, form, at)|) else r.Fail?
  {
    hide Ber, FormsWithin, Dec, IsBer;
    if FormsWithin(t, v, form, at, ROOM) {
      BerIsBer(t, v, form, at, ROOM);
      ObjectRoundTrip(t, slot, v, Ber(t, v, form, at), rest);
    } else {
      WideFormIsRefused(t, slot, v, form, at, rest);
    }
  }

  /** The shortest example: the empty record with its length of 0 in nine octets
      is an encoding that X.690 allows, and is refused. */
  lemma NineOctets()
    ensures var e: bytes := [0x30, 0x89, 0, 0, 0, 0, 0, 0, 0, 0, 0];
            IsBer(Record([]), Struct([]), e, MOST) && Dec(Record([]), None, e) == Fail(None)
  {
    hide Wrap;
    var e: bytes := [0x30, 0x89, 0, 0, 0, 0, 0, 0, 0, 0, 0];
    NineOctetsHeader(e);
    assert IsWrapped(e, SEQUENCE, UNIVERSAL, [], MOST);
    assert AreBerFields([], [], [], MOST);
    WideWrap(SEQUENCE, UNIVERSAL, [], Long(9), []);
    assert e + [] == e;
  }

  lemma NineOctetsHeader(e: bytes)
    requires e == [0x30, 0x89, 0, 0, 0, 0, 0, 0, 0, 0, 0]
    ensures e == Wrap(SEQUENCE, UNIVERSAL, [], Long(9))
  {
    assert Base256(0) == [];
    var d: bytes := Padded(9, 0);
    assert d == [0, 0, 0, 0, 0, 0, 0, 0, 0];
    assert LengthIn(Long(9), 0) == [0x89] + d;
  }
}
