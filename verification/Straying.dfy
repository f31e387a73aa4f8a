/** Where the macros leave the window they were given. get_EXP_opt holds back
    two octets of an indefinite wrapper for its end-of-contents without asking
    whether there are two; the length it hands on is then negative, and the d2i
    it calls looks for a header behind the window. */
module Straying {
  import opened Octets
  import opened Header
  import opened Schema
  import opened Encode
  import opened Decode
  import opened Grammar
  import opened RoundTrip
  import opened WideLengths
  import opened Theorems

  /** The wrapper announces an indefinite length and has not two octets left. */
  predicate NoRoom(w: bytes) {
    var h := GetObject(w);
    h.Head? && h.indefinite && |w| - h.size < 2
  }

  /** Reading a `t` from the window, is some d2i given a negative length? */
  predicate Strays(t: Type, w: bytes)
    decreases t, 1
  {
    var h := GetObject(w);
    match t
    case Leaf(_) => false
    case Record(fs) =>
      h.Head? && h.tag == SEQUENCE && h.cls == UNIVERSAL && h.constructed && StraysInFields(fs, Content(h, w))
    case List(e, _, tag, cls) =>
      h.Head? && h.tag == tag && h.cls == cls && StraysInItems(e, Content(h, w))
  }

  predicate StraysInItems(e: Type, rest: bytes)
    decreases e, 2, |rest|
  {
    && rest != [] && !AtEndOfContents(rest)
    && (Strays(e, rest) || var r := Dec(e, None, rest); r.Done? && StraysInItems(e, rest[r.n..]))
  }

  predicate StraysInFields(fs: seq<Field>, rest: bytes)
    decreases fs, 0
  {
    && fs != []
    && (StraysInField(fs[0], rest) ||
        var step := DecField(fs[0], None, rest); step.Went? && StraysInFields(fs[1..], rest[step.n..]))
  }

  predicate StraysInField(f: Field, rest: bytes)
    decreases f, 1
  {
    Enters(f, rest) && ((f.ExpOpt? && NoRoom(rest)) || Strays(f.t, Seen(f, rest)))
  }

  lemma NothingStrays(t: Type)
    ensures !Strays(t, [])
  {
  }

  /** A run that strays fails: no octets are accepted by looking behind them. */
  lemma {:induction false} StrayingFails(t: Type, slot: Slot, w: bytes)
    requires Strays(t, w)
    ensures Dec(t, slot, w).Fail?
    decreases t, 1
  {
    hide GetObject, DecFields, DecItems, StraysInFields, StraysInItems, Target;
    DecIsOver(t, slot, w);
    match t
    case Leaf(_) =>
    case Record(fs) =>
      NothingSet(fs);
      StrayingStops(fs, Target(fs, None), Content(GetObject(w), w));
    case List(e, _, _, _) => StrayingEnds(e, GetObject(w).indefinite, Content(GetObject(w), w));
  }

  lemma {:induction false} StrayingEnds(e: Type, indefinite: bool, rest: bytes)
    requires StraysInItems(e, rest)
    ensures DecItems(e, indefinite, rest).ElementsStop?
    decreases e, 2, |rest|
  {
    hide Dec, Strays;
    if Strays(e, rest) {
      StrayingFails(e, None, rest);
    } else {
      StrayingEnds(e, indefinite, rest[Dec(e, None, rest).n..]);
    }
  }

  lemma {:induction false} StrayingStops(fs: seq<Field>, slots: seq<Slot>, rest: bytes)
    requires |fs| == |slots| && (forall i | 0 <= i < |fs| :: slots[i] == None)
    requires StraysInFields(fs, rest)
    ensures DecFields(fs, slots, rest).FieldsStop?
    decreases fs, 0
  {
    hide DecField, StraysInField;
    if StraysInField(fs[0], rest) {
      StrayingField(fs[0], rest);
    } else {
      StrayingStops(fs[1..], slots[1..], rest[DecField(fs[0], None, rest).n..]);
    }
  }

  lemma {:induction false} StrayingField(f: Field, rest: bytes)
    requires StraysInField(f, rest)
    ensures DecField(f, None, rest).Stop?
    decreases f, 1
  {
    hide Dec, GetObject, Untag, Strays;
    EnterStep(f, None, rest);
    if f.ExpOpt? && NoRoom(rest) {
      NoOctets(f.t, None);
    } else {
      StrayingFails(f.t, None, Seen(f, rest));
    }
  }

  /** So nothing that the macros write strays, whatever follows it. */
  lemma WrittenStaysInside(t: Type, v: Value, rest: bytes)
    requires WellTagged(t) && Fits(t, v) && Complete(t, v) && |Enc(t, v)| <= INT_MAX
    ensures !Strays(t, Enc(t, v) + rest)
  {
    hide Strays, Dec, Enc;
    EncodeDecode(t, None, v, rest);
    if Strays(t, Enc(t, v) + rest) {
      StrayingFails(t, None, Enc(t, v) + rest);
    }
  }

  /** No encoding of an object that X.690 allows strays, whatever follows it: one
      with lengths there is room for is accepted, and the run over another stops
      at a header, with nothing handed on behind the window. */
  lemma {:induction false} EncodingsStayInside(t: Type, v: Value, e: bytes, rest: bytes)
    requires WellTagged(t) && IsBer(t, v, e, MOST) && |e| <= LONG_MAX
    ensures !Strays(t, e + rest)
    decreases t, 1
  {
    hide Wrap, GetObject, Content, Tail, StraysInFields, StraysInItems;
    match t
    case Leaf(_) =>
    case Record(fs) =>
      var body: bytes :| IsWrapped(e, SEQUENCE, UNIVERSAL, body, MOST) && AreBerFields(fs, v.fields, body, MOST);
      var form: LengthForm :| e == Wrap(SEQUENCE, UNIVERSAL, body, form);
      if Within(form, ROOM) {
        WrapRoundTrip(SEQUENCE, UNIVERSAL, body, form, rest);
        TailIsEnd(form.Indefinite?, rest);
        FieldsStayInside(fs, v.fields, body, Tail(form.Indefinite?, rest));
      } else {
        WideWrap(SEQUENCE, UNIVERSAL, body, form, rest);
      }
    case List(elem, _, tag, cls) =>
      var body: bytes :| IsWrapped(e, tag, cls, body, MOST) && AreBerItems(elem, v.items, body, MOST);
      var form: LengthForm :| e == Wrap(tag, cls, body, form);
      if Within(form, ROOM) {
        WrapRoundTrip(tag, cls, body, form, rest);
        TailIsEnd(form.Indefinite?, rest);
        ItemsStayInside(elem, v.items, body, Tail(form.Indefinite?, rest));
      } else {
        WideWrap(tag, cls, body, form, rest);
      }
  }

  lemma {:induction false} ItemsStayInside(elem: Type, xs: seq<Value>, e: bytes, tail: bytes)
    requires WellTagged(elem) && AreBerItems(elem, xs, e, MOST) && |e| <= LONG_MAX
    requires IsEnd(true, tail) || IsEnd(false, tail)
    ensures !StraysInItems(elem, e + tail)
    decreases elem, 2, |xs|
  {
    hide IsBer, Dec, Strays;
    if xs == [] {
      assert e + tail == tail;
    } else {
      var k: nat :| ItemEndsAt(elem, xs, e, k, MOST);
      SplitAt(e, k, tail);
      EncodingsStayInside(elem, xs[0], e[..k], e[k..] + tail);
      ReadWhenWithin(elem, None, xs[0], e[..k], e[k..] + tail);
      ItemsStayInside(elem, xs[1..], e[k..], tail);
    }
  }

  lemma {:induction false} FieldsStayInside(fs: seq<Field>, slots: seq<Slot>, e: bytes, tail: bytes)
    requires WellTaggedFields(fs) && AreBerFields(fs, slots, e, MOST) && |e| <= LONG_MAX
    requires IsEnd(true, tail) || IsEnd(false, tail)
    ensures !StraysInFields(fs, e + tail)
    decreases fs, 0
  {
    hide IsBerField, DecField, StraysInField, Enters;
    if fs != [] {
      var k: nat :| FieldEndsAt(fs, slots, e, k, MOST);
      SplitAt(e, k, tail);
      AbsentIsSkipped(fs, slots, k, e, tail, MOST);
      FieldStaysInside(fs[0], slots[0], e[..k], e[k..] + tail);
      if IsBerField(fs[0], slots[0], e[..k], ROOM) {
        FieldRoundTrip(fs[0], None, slots[0], e[..k], e[k..] + tail);
      } else {
        WideField(fs[0], None, slots[0], e[..k], e[k..] + tail);
      }
      FieldsStayInside(fs[1..], slots[1..], e[k..], tail);
    }
  }

  lemma {:induction false} FieldStaysInside(f: Field, slot: Slot, e: bytes, rest: bytes)
    requires WellTaggedField(f) && IsBerField(f, slot, e, MOST) && |e| <= LONG_MAX
    requires slot.None? ==> !Enters(f, rest)
    ensures !StraysInField(f, e + rest)
    decreases f, 1
  {
    hide IsBer, Wrap, GetObject, Strays, Content, Inside;
    if slot.None? {
      assert e + rest == rest;
    } else {
      var t, v := f.t, slot.value;
      match f
      case ImpOpt(_, tag, typ) =>
        var inner: bytes :| IsRetagged(e, inner, tag, typ) && IsBer(t, v, inner, MOST);
        EncodingsStayInside(t, v, inner, rest);
        RetagUntag(inner, rest, tag, typ);
      case ExpOpt(_, mtag) =>
        var inner: bytes :| IsWrapped(e, mtag, CONTEXT_SPECIFIC, inner, MOST) && IsBer(t, v, inner, MOST);
        var form: LengthForm :| e == Wrap(mtag, CONTEXT_SPECIFIC, inner, form);
        EncodingsStayInside(t, v, inner, HeldBack(form.Indefinite?, rest));
        WrapperHasRoom(t, mtag, inner, form, rest);
      case _ => EncodingsStayInside(t, v, e, rest);
    }
  }

  lemma WrapperHasRoom(t: Type, mtag: Tag, inner: bytes, form: LengthForm, rest: bytes)
    requires |inner| <= LONG_MAX && !Strays(t, inner + HeldBack(form.Indefinite?, rest))
    ensures var w := Wrap(mtag, CONTEXT_SPECIFIC, inner, form) + rest;
            !NoRoom(w) && !Strays(t, Seen(ExpOpt(t, mtag), w))
  {
    hide Wrap, GetObject, Strays, Content, Inside;
    var w := Wrap(mtag, CONTEXT_SPECIFIC, inner, form) + rest;
    if Within(form, ROOM) {
      WrapRoundTrip(mtag, CONTEXT_SPECIFIC, inner, form, rest);
      InsideContent(GetObject(w), w, inner, rest);
    } else {
      WideWrap(mtag, CONTEXT_SPECIFIC, inner, form, rest);
      NothingStrays(t);
    }
  }

  /** The wrapper a0 80 at the end of its window, with nothing or one octet behind
      it: the length handed on is -2 or -1. */
  lemma CutOffWrapper(t: Type, more: bytes)
    requires |more| < 2
    ensures var w := [0x30, 2 + |more|, 0xa0, 0x80] + more;
            Strays(Record([ExpOpt(t, 0)]), w) && Dec(Record([ExpOpt(t, 0)]), None, w) == Fail(None)
  {
    hide Dec;
    var fs, rest := [ExpOpt(t, 0)], [0xa0, 0x80] + more;
    var w := [0x30, 2 + |more|, 0xa0, 0x80] + more;
    assert GetObject(w) == Head(2, true, false, UNIVERSAL, 16, |rest|) && w[2..2 + |rest|] == rest;
    CutOffField(t, rest);
    assert StraysInFields(fs, rest);
    StrayingFails(Record(fs), None, w);
    DecFits(Record(fs), None, w);
  }

  lemma CutOffField(t: Type, rest: bytes)
    requires 2 <= |rest| < 4 && rest[0] == 0xa0 && rest[1] == 0x80
    ensures StraysInField(ExpOpt(t, 0), rest)
  {
    assert rest[1..][0] == 0x80;
    assert GetObject(rest) == Head(2, true, true, CONTEXT_SPECIFIC, 0, 0);
  }
}
