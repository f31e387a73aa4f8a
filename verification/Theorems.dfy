/** The main results about reading and writing whole objects. */
module Theorems {
  import opened Octets
  import opened Header
  import opened Schema
  import opened Encode
  import opened Decode
  import opened Grammar
  import opened RoundTrip
  import opened WideLengths
  import opened Canonical
  import opened Masks

  // ------------------------------------------------ what a reader delivers

  /** A d2i function delivers an object of its type; when it fails, the slot
      still holds one or is NULL, and a slot that was NULL is still NULL. */
  lemma {:induction false} DecFits(t: Type, slot: Slot, w: bytes)
    requires FitsSlot(t, slot)
    ensures var r := Dec(t, slot, w);
            && (r.Done? ==> Fits(t, r.v))
            && (r.Fail? ==> FitsSlot(t, r.slot) && (slot.None? ==> r.slot.None?))
    decreases t, 1
  {
    hide GetObject, DecFields, DecItems, Target, FitsFields;
    match t
    case Leaf(c) => assert ReadsOne(c, w);
    case Record(fs) =>
      TargetFits(fs, slot);
      if GetObject(w).Head? {
        DecFieldsFit(fs, Target(fs, slot), Content(GetObject(w), w));
      }
    case List(e, _, _, _) =>
      if GetObject(w).Head? {
        DecItemsFit(e, GetObject(w).indefinite, Content(GetObject(w), w));
      }
  }

  lemma TargetFits(fs: seq<Field>, slot: Slot)
    requires FitsSlot(Record(fs), slot)
    ensures FitsFields(fs, Target(fs, slot))
  {
    if slot.Some? {
      LengthsAgree(fs, slot.value.fields);
    } else {
      EmptyFits(fs, Target(fs, slot));
    }
  }

  lemma LengthsAgree(fs: seq<Field>, slots: seq<Slot>)
    requires FitsFields(fs, slots)
    ensures |fs| == |slots|
  {
  }

  lemma {:induction false} EmptyFits(fs: seq<Field>, slots: seq<Slot>)
    requires |fs| == |slots| && forall i | 0 <= i < |slots| :: slots[i] == None
    ensures FitsFields(fs, slots)
  {
    if fs != [] {
      EmptyFits(fs[1..], slots[1..]);
    }
  }

  lemma {:induction false} DecItemsFit(e: Type, indefinite: bool, rest: bytes)
    ensures var r := DecItems(e, indefinite, rest);
            r.ElementsRead? ==> forall x <- r.items :: Fits(e, x)
    decreases e, 2, |rest|
  {
    if rest != [] && !AtEndOfContents(rest) {
      DecFits(e, None, rest);
      var r := Dec(e, None, rest);
      if r.Done? {
        DecItemsFit(e, indefinite, rest[r.n..]);
      }
    }
  }

  lemma {:induction false} DecFieldsFit(fs: seq<Field>, slots: seq<Slot>, rest: bytes)
    requires FitsFields(fs, slots)
    ensures FitsFields(fs, DecFields(fs, slots, rest).slots)
    decreases fs, 0
  {
    if fs != [] {
      DecFieldFits(fs[0], slots[0], rest);
      var r := DecField(fs[0], slots[0], rest);
      if r.Went? {
        DecFieldsFit(fs[1..], slots[1..], rest[r.n..]);
      }
      assert DecFields(fs, slots, rest).slots[0] == r.slot;
      FitsCons(fs, r.slot, DecFields(fs, slots, rest).slots[1..], DecFields(fs, slots, rest).slots);
    }
  }

  lemma FitsCons(fs: seq<Field>, s: Slot, ss: seq<Slot>, slots: seq<Slot>)
    requires fs != [] && slots != [] && slots[0] == s && slots[1..] == ss
    requires FitsField(fs[0], s) && FitsFields(fs[1..], ss)
    ensures FitsFields(fs, slots)
  {
  }

  lemma {:induction false} DecFieldFits(f: Field, slot: Slot, rest: bytes)
    requires FitsField(f, slot)
    ensures FitsField(f, DecField(f, slot, rest).slot)
    decreases f, 1
  {
    hide Dec, GetObject, Inside, Untag, Takes, Fits;
    if Enters(f, rest) {
      EnterStep(f, slot, rest);
      DecFits(f.t, slot, Seen(f, rest));
    }
  }

  ghost predicate CompleteSlot(t: Type, slot: Slot) {
    slot.Some? ==> Fits(t, slot.value) && Complete(t, slot.value)
  }

  ghost predicate CompleteSlots(fs: seq<Field>, slots: seq<Slot>)
    requires |fs| == |slots|
  {
    forall i | 0 <= i < |fs| :: CompleteSlot(fs[i].t, slots[i])
  }

  /** What a d2i function delivers has every mandatory field, at every depth,
      provided the object it was given had. */
  lemma {:induction false} DecCompletes(t: Type, slot: Slot, w: bytes)
    requires CompleteSlot(t, slot)
    ensures var r := Dec(t, slot, w); r.Done? ==> Fits(t, r.v) && Complete(t, r.v)
    decreases t, 1
  {
    DecFits(t, slot, w);
    match t
    case Leaf(_) =>
    case Record(fs) =>
      TargetComplete(fs, slot);
      if GetObject(w).Head? {
        DecFieldsComplete(fs, Target(fs, slot), Content(GetObject(w), w));
      }
    case List(e, _, _, _) =>
      if GetObject(w).Head? {
        DecItemsComplete(e, GetObject(w).indefinite, Content(GetObject(w), w));
      }
  }

  lemma TargetComplete(fs: seq<Field>, slot: Slot)
    requires CompleteSlot(Record(fs), slot)
    ensures CompleteSlots(fs, Target(fs, slot))
  {
    if slot.Some? {
      CompleteEach(fs, slot.value.fields);
    }
  }

  lemma {:induction false} CompleteEach(fs: seq<Field>, slots: seq<Slot>)
    requires FitsFields(fs, slots) && CompleteFields(fs, slots)
    ensures |fs| == |slots| && CompleteSlots(fs, slots)
  {
    if fs != [] {
      CompleteEach(fs[1..], slots[1..]);
      forall i | 0 <= i < |fs| ensures CompleteSlot(fs[i].t, slots[i]) {
        if i > 0 {
          assert CompleteSlot(fs[1..][i - 1].t, slots[1..][i - 1]);
        }
      }
    }
  }

  lemma {:induction false} DecItemsComplete(e: Type, indefinite: bool, rest: bytes)
    ensures var r := DecItems(e, indefinite, rest);
            r.ElementsRead? ==> forall x <- r.items :: Fits(e, x) && Complete(e, x)
    decreases e, 2, |rest|
  {
    if rest != [] && !AtEndOfContents(rest) {
      DecCompletes(e, None, rest);
      var r := Dec(e, None, rest);
      if r.Done? {
        DecItemsComplete(e, indefinite, rest[r.n..]);
      }
    }
  }

  lemma {:induction false} DecFieldsComplete(fs: seq<Field>, slots: seq<Slot>, rest: bytes)
    requires |fs| == |slots| && CompleteSlots(fs, slots)
    ensures var r := DecFields(fs, slots, rest);
            r.FieldsRead? ==> FitsFields(fs, r.slots) && CompleteFields(fs, r.slots)
    decreases fs, 0
  {
    if fs != [] {
      assert CompleteSlot(fs[0].t, slots[0]);
      DecFieldCompletes(fs[0], slots[0], rest);
      var r := DecField(fs[0], slots[0], rest);
      if r.Went? {
        assert CompleteSlots(fs[1..], slots[1..]) by {
          forall i | 0 <= i < |fs| - 1 ensures CompleteSlot(fs[1..][i].t, slots[1..][i]) {
            assert CompleteSlot(fs[i + 1].t, slots[i + 1]);
          }
        }
        DecFieldsComplete(fs[1..], slots[1..], rest[r.n..]);
        CompleteCons(fs, r.slot, DecFields(fs[1..], slots[1..], rest[r.n..]));
      }
    }
  }

  lemma CompleteCons(fs: seq<Field>, s: Slot, r: Fields)
    requires fs != [] && FitsField(fs[0], s) && CompleteField(fs[0], s)
    requires r.FieldsRead? ==> FitsFields(fs[1..], r.slots) && CompleteFields(fs[1..], r.slots)
    ensures r.FieldsRead? ==> FitsFields(fs, [s] + r.slots) && CompleteFields(fs, [s] + r.slots)
  {
    assert ([s] + r.slots)[1..] == r.slots;
  }

  lemma {:induction false} DecFieldCompletes(f: Field, slot: Slot, rest: bytes)
    requires CompleteSlot(f.t, slot)
    ensures var r := DecField(f, slot, rest);
            r.Went? ==> FitsField(f, r.slot) && CompleteField(f, r.slot)
    decreases f, 1
  {
    hide Dec, GetObject, Inside, Untag, Takes, Fits, Complete;
    if Enters(f, rest) {
      EnterStep(f, slot, rest);
      DecCompletes(f.t, slot, Seen(f, rest));
    }
  }

  // ---------------------------------------- the object does not steer the run

  /** The caller's object has no part in what is accepted and how far: a call
      that is given one reads the object it would read into a new one, laid over
      the one it was given. */
  lemma {:induction false} DecIsOver(t: Type, slot: Slot, w: bytes)
    ensures var r, anew := Dec(t, slot, w), Dec(t, None, w);
            r.Done? == anew.Done? && (r.Done? ==> r.n == anew.n && r.v == Over(t, slot, anew.v))
    decreases t, 1
  {
    hide GetObject, DecFields, DecItems, Target;
    if t.Record? && GetObject(w).Head? {
      var fs, rest := t.fields, Content(GetObject(w), w);
      NothingSet(fs);
      DecFieldsAreOver(fs, Target(fs, slot), Target(fs, None), rest);
    }
  }

  lemma NothingSet(fs: seq<Field>)
    ensures forall i | 0 <= i < |fs| :: Target(fs, None)[i] == None
  {
  }

  lemma {:induction false} DecFieldsAreOver(fs: seq<Field>, was: seq<Slot>, nothing: seq<Slot>, rest: bytes)
    requires |fs| == |was| == |nothing| && forall i | 0 <= i < |fs| :: nothing[i] == None
    ensures var r, anew := DecFields(fs, was, rest), DecFields(fs, nothing, rest);
            r.FieldsRead? == anew.FieldsRead? &&
            (r.FieldsRead? ==> r.n == anew.n && r.slots == OverFields(fs, was, anew.slots))
    decreases fs, 0
  {
    hide DecField, OverField;
    if fs != [] {
      DecFieldIsOver(fs[0], was[0], rest);
      var step := DecField(fs[0], None, rest);
      if step.Went? {
        var later := rest[step.n..];
        DecFieldsAreOver(fs[1..], was[1..], nothing[1..], later);
        assert ([step.slot] + DecFields(fs[1..], nothing[1..], later).slots)[1..]
            == DecFields(fs[1..], nothing[1..], later).slots;
      }
    }
  }

  lemma {:induction false} DecFieldIsOver(f: Field, was: Slot, rest: bytes)
    ensures var r, anew := DecField(f, was, rest), DecField(f, None, rest);
            r.Went? == anew.Went? && (r.Went? ==> r.n == anew.n && r.slot == OverField(f, was, anew.slot))
    decreases f, 1
  {
    hide Dec, GetObject, Inside, Untag, Over;
    if Enters(f, rest) {
      DecIsOver(f.t, was, Seen(f, rest));
      EnterStep(f, was, rest);
      EnterStep(f, None, rest);
    }
  }

  // ------------------------------------------------------ what is accepted

  /** `n` octets have been read through two zero octets. */
  predicate IsClosed(w: bytes, n: nat) {
    2 <= n <= |w| && w[n - 2] == 0 && w[n - 1] == 0
  }

  /** A list that is read ends here, or is read one element further. */
  lemma AcceptedItem(e: Type, indefinite: bool, rest: bytes)
    requires DecItems(e, indefinite, rest).ElementsRead?
    ensures var r := DecItems(e, indefinite, rest);
            if rest == [] || AtEndOfContents(rest)
            then r.items == [] && r.n == Closing(indefinite) && Finish(indefinite, rest, 0).Some?
            else
              var x := Dec(e, None, rest);
              && x.Done? && DecItems(e, indefinite, rest[x.n..]).ElementsRead?
              && r.n == x.n + DecItems(e, indefinite, rest[x.n..]).n
              && r.items == [x.v] + DecItems(e, indefinite, rest[x.n..]).items
  {
    hide Dec;
    assert rest[0..] == rest;
  }

  /** A definite list is read to the last octet, an indefinite one through its
      end-of-contents. */
  lemma {:induction false} ListEnds(e: Type, indefinite: bool, rest: bytes)
    ensures var r := DecItems(e, indefinite, rest);
            r.ElementsRead? ==> if indefinite then IsClosed(rest, r.n) else r.n == |rest|
    decreases |rest|
  {
    hide Dec, DecItems;
    if DecItems(e, indefinite, rest).ElementsRead? {
      AcceptedItem(e, indefinite, rest);
      if rest != [] && !AtEndOfContents(rest) {
        ListEnds(e, indefinite, rest[Dec(e, None, rest).n..]);
      }
    }
  }

  lemma RecordEnds(fs: seq<Field>, slots: seq<Slot>, indefinite: bool, rest: bytes)
    requires |fs| == |slots|
    ensures var r := DecRecord(fs, slots, indefinite, rest);
            r.FieldsRead? ==> if indefinite then IsClosed(rest, r.n) else r.n == |rest|
  {
    hide DecFields;
  }

  /** Octets accepted as a record are a universal SEQUENCE; a definite one is
      taken up to exactly the length it announces, an indefinite one through
      two zero octets. The tag may come in a form that section 8.1.2 of X.690
      does not allow; Accepted.UnusualIdentifiers has two. */
  lemma AcceptedRecord(fs: seq<Field>, slot: Slot, w: bytes)
    ensures var r, h := Dec(Record(fs), slot, w), GetObject(w);
            r.Done? ==>
              && h.Head? && h.tag == SEQUENCE && h.cls == UNIVERSAL && h.constructed
              && (if h.indefinite then IsClosed(w, r.n) else r.n == h.size + h.len)
  {
    hide GetObject, DecRecord, Target;
    var h := GetObject(w);
    if h.Head? {
      RecordEnds(fs, Target(fs, slot), h.indefinite, Content(h, w));
    }
  }

  /** Octets accepted as a list carry its own tag and class, with the same ends. */
  lemma AcceptedList(t: Type, slot: Slot, w: bytes)
    requires t.List?
    ensures var r, h := Dec(t, slot, w), GetObject(w);
            r.Done? ==>
              && h.Head? && h.tag == t.tag && h.cls == t.cls
              && (if h.indefinite then IsClosed(w, r.n) else r.n == h.size + h.len)
  {
    hide GetObject, DecItems;
    var h := GetObject(w);
    if h.Head? {
      ListEnds(t.elem, h.indefinite, Content(h, w));
    }
  }

  // ---------------------------------------------------------- main results

  /** Reading what the macros wrote, into any object and with anything behind
      it, lays the canonical object over the old one and takes exactly the
      octets written. */
  lemma EncodeDecode(t: Type, slot: Slot, v: Value, rest: bytes)
    requires WellTagged(t) && Fits(t, v) && Complete(t, v) && |Enc(t, v)| <= INT_MAX
    ensures Dec(t, slot, Enc(t, v) + rest) == Done(Over(t, slot, Canon(t, v)), |Enc(t, v)|)
  {
    CanonCorrect(t, v);
    CanonComplete(t, v);
    EncIsBer(t, Canon(t, v), []);
    EveryFormWithin(t, Canon(t, v), DEFINITE, [], ROOM);
    BerRoundTrip(t, slot, Canon(t, v), DEFINITE, [], rest);
  }

  /** Into a new object, the object itself comes back exactly when no optional
      list is present but empty and every SET OF is in order. */
  lemma ExactRoundTrip(t: Type, v: Value, rest: bytes)
    requires WellTagged(t) && Fits(t, v) && Complete(t, v) && |Enc(t, v)| <= INT_MAX
    ensures Dec(t, None, Enc(t, v) + rest) == Done(Canon(t, v), |Enc(t, v)|)
    ensures Dec(t, None, Enc(t, v) + rest) == Done(v, |Enc(t, v)|) <==> IsCanonical(t, v)
  {
    EncodeDecode(t, None, v, rest);
    OverNothing(t, Canon(t, v));
    CanonCorrect(t, v);
    if IsCanonical(t, v) {
      CanonFixed(t, v);
    }
  }

  /** In any record an empty optional list is written as a NULL one is, and so
      is read back as NULL. */
  lemma {:induction false} EmptyListIsAbsent(fs: seq<Field>, slots: seq<Slot>, i: nat)
    requires FitsFields(fs, slots) && i < |slots|
    requires slots[i] == Some(Items([])) && (fs[i].ListOpt? || fs[i].ExpOpt?)
    ensures FitsFields(fs, slots[i := None])
    ensures EncFields(fs, slots[i := None]) == EncFields(fs, slots)
    ensures CanonFields(fs, slots)[i] == None
    decreases fs
  {
    var without := slots[i := None];
    if i == 0 {
      assert without[1..] == slots[1..];
    } else {
      assert without[1..] == slots[1..][i - 1 := None];
      assert fs[1..][i - 1] == fs[i];
      EmptyListIsAbsent(fs[1..], slots[1..], i - 1);
    }
  }

  /** Objects are written alike, whatever follows them, exactly when they have
      the same canonical form: the octets identify the object, and no encoding
      is the beginning of another. */
  lemma SameEncoding(t: Type, v1: Value, rest1: bytes, v2: Value, rest2: bytes)
    requires WellTagged(t)
    requires Fits(t, v1) && Complete(t, v1) && |Enc(t, v1)| <= INT_MAX
    requires Fits(t, v2) && Complete(t, v2) && |Enc(t, v2)| <= INT_MAX
    ensures Enc(t, v1) + rest1 == Enc(t, v2) + rest2 <==> Canon(t, v1) == Canon(t, v2) && rest1 == rest2
  {
    ExactRoundTrip(t, v1, rest1);
    ExactRoundTrip(t, v2, rest2);
    CanonCorrect(t, v1);
    CanonCorrect(t, v2);
    if Enc(t, v1) + rest1 == Enc(t, v2) + rest2 {
      assert rest1 == (Enc(t, v1) + rest1)[|Enc(t, v1)|..];
      assert rest2 == (Enc(t, v2) + rest2)[|Enc(t, v2)|..];
    }
  }

  /** Any two choices of length forms, at any depth, are read as one object when
      both are read at all: when no place that is used asks for more than eight
      octets. */
  lemma FormsAgree(t: Type, slot: Slot, v: Value, form1: Form, rest1: bytes, form2: Form, rest2: bytes)
    requires WellTagged(t) && Fits(t, v) && Complete(t, v)
    requires |Ber(t, v, form1, [])| <= LONG_MAX && |Ber(t, v, form2, [])| <= LONG_MAX
    ensures var r1, r2 := Dec(t, slot, Ber(t, v, form1, []) + rest1), Dec(t, slot, Ber(t, v, form2, []) + rest2);
            && r1.Done? == FormsWithin(t, v, form1, [], ROOM)
            && r2.Done? == FormsWithin(t, v, form2, [], ROOM)
            && (r1.Done? && r2.Done? ==>
                  r1.v == r2.v && r1.n == |Ber(t, v, form1, [])| && r2.n == |Ber(t, v, form2, [])|)
  {
    hide Ber, Dec, FormsWithin;
    BerRoundTrip(t, slot, v, form1, [], rest1);
    BerRoundTrip(t, slot, v, form2, [], rest2);
  }

  /** An EXPLICIT field is read as the same object whatever the length form of
      its wrapper, 0x80 and two zero octets among them, and each step takes its
      own octets and no more; a wrapper with its length in more than eight
      octets stops the run and leaves the field as it was. */
  lemma ExplicitFormsAgree(t: Type, tag: Tag, slot: Slot, v: Value, form: LengthForm, rest: bytes)
    requires IsGuarded(CONTEXT_SPECIFIC, tag)
    requires WellTagged(t) && Fits(t, v) && Complete(t, v) && |Enc(t, v)| <= INT_MAX
    ensures var w := Wrap(tag, CONTEXT_SPECIFIC, Enc(t, v), form);
            DecField(ExpOpt(t, tag), slot, w + rest)
            == if Within(form, ROOM) then Went(Some(Over(t, slot, Canon(t, v))), |w|) else Stop(slot)
  {
    hide Enc, Dec, DecField, Wrap, Over, Canon, Fits, Complete, WellTagged;
    if Within(form, ROOM) {
      EncodeDecode(t, slot, v, HeldBack(form.Indefinite?, rest));
      ExplicitRoundTrip(t, tag, slot, Enc(t, v), Over(t, slot, Canon(t, v)), form, rest);
    } else {
      ExplicitStops(t, tag, slot, Enc(t, v), form, rest);
    }
  }

  /** For every tag an int holds: the guard takes its own field exactly for the
      tags up to 31 and for 63, 159 and 191, and the field is then read back in
      the length forms there is room for. With any other tag nothing is read. */
  lemma ExplicitTags(t: Type, tag: Tag, slot: Slot, v: Value, form: LengthForm, rest: bytes)
    requires WellTagged(t) && Fits(t, v) && Complete(t, v) && |Enc(t, v)| <= INT_MAX
    ensures var w := Wrap(tag, CONTEXT_SPECIFIC, Enc(t, v), form);
            var r := DecField(ExpOpt(t, tag), slot, w + rest);
            if !(tag <= 31 || tag == 63 || tag == 159 || tag == 191) then r == Went(slot, 0)
            else if Within(form, ROOM) then r == Went(Some(Over(t, slot, Canon(t, v))), |w|)
            else r == Stop(slot)
  {
    hide Enc, Dec, Enter, Over, Canon, Fits, Complete, WellTagged, HeaderIn;
    GuardedTags(tag);
    if IsGuarded(CONTEXT_SPECIFIC, tag) {
      ExplicitFormsAgree(t, tag, slot, v, form, rest);
    }
  }

  /** Whatever a d2i function accepts can be written again, and what is written
      then is read back as the canonical form of the object that was accepted. */
  lemma AcceptedIsWritable(t: Type, w: bytes, rest: bytes)
    requires WellTagged(t)
    ensures var r := Dec(t, None, w);
            r.Done? ==>
              && Fits(t, r.v) && Complete(t, r.v)
              && (|Enc(t, r.v)| <= INT_MAX ==>
                    Dec(t, None, Enc(t, r.v) + rest) == Done(Canon(t, r.v), |Enc(t, r.v)|))
  {
    var r := Dec(t, None, w);
    DecCompletes(t, None, w);
    if r.Done? && |Enc(t, r.v)| <= INT_MAX {
      ExactRoundTrip(t, r.v, rest);
    }
  }

  /** There are octets the macros accept and never write: a wrapper around
      one field that runs on over the next is read as those two fields. */
  lemma ExplicitNeedNotBeFilled(t1: Type, tag: Tag, v1: Value, t2: Type, v2: Value)
    requires IsGuarded(CONTEXT_SPECIFIC, tag)
    requires WellTagged(t1) && Fits(t1, v1) && Complete(t1, v1)
    requires WellTagged(t2) && Fits(t2, v2) && Complete(t2, v2)
    requires |Enc(t1, v1)| + |Enc(t2, v2)| <= INT_MAX
    ensures var w := Overrun(Enc(t1, v1), tag, Enc(t2, v2));
            DecFields([ExpOpt(t1, tag), Plain(t2)], [None, None], w)
            == FieldsRead([Some(Canon(t1, v1)), Some(Canon(t2, v2))], |w|)
  {
    hide Enc, Dec, GetObject, PutObject, Fits, Complete, WellTagged, DecFields, Canon;
    var e1, e2 := Enc(t1, v1), Enc(t2, v2);
    HeaderRoundTrip(true, |e1 + e2|, tag, CONTEXT_SPECIFIC, e1 + e2);
    ExactRoundTrip(t1, v1, e2);
    ExactRoundTrip(t2, v2, []);
    TwoFields(t1, tag, t2, PutObject(true, |e1 + e2|, tag, CONTEXT_SPECIFIC), e1, e2, Canon(t1, v1), Canon(t2, v2));
  }

  /** A definite EXPLICIT header that claims both encodings. */
  function Overrun(e1: bytes, tag: Tag, e2: bytes): bytes {
    PutObject(true, |e1 + e2|, tag, CONTEXT_SPECIFIC) + (e1 + e2)
  }

  lemma TwoFields(t1: Type, tag: Tag, t2: Type, h: bytes, e1: bytes, e2: bytes, v1: Value, v2: Value)
    requires h != [] && h[0] == GuardNumber(CONTEXT_SPECIFIC, tag)
    requires GetObject(h + (e1 + e2)) == Head(|h|, true, false, CONTEXT_SPECIFIC, tag, |e1 + e2|)
    requires Dec(t1, None, e1 + e2) == Done(v1, |e1|) && Dec(t2, None, e2 + []) == Done(v2, |e2|)
    ensures DecFields([ExpOpt(t1, tag), Plain(t2)], [None, None], h + (e1 + e2))
         == FieldsRead([Some(v1), Some(v2)], |h + (e1 + e2)|)
  {
    hide GetObject, Dec, DecField, Inside, DecFields;
    var w := h + (e1 + e2);
    InsideDefinite(h, e1 + e2);
    assert w[0] == h[0];
    EnterExplicit(t1, tag, None, w, v1, |e1|);
    AfterBoth(h, e1, e2);
    FieldThenLast(t1, tag, t2, w, |h| + |e1|, v1, v2);
  }

  lemma AfterBoth(h: bytes, e1: bytes, e2: bytes)
    ensures (h + (e1 + e2))[|h| + |e1|..] == e2 == e2 + []
  {
    assert h + (e1 + e2) == h + e1 + e2;
  }

  lemma FieldThenLast(t1: Type, tag: Tag, t2: Type, w: bytes, n: nat, v1: Value, v2: Value)
    requires DecField(ExpOpt(t1, tag), None, w) == Went(Some(v1), n)
    requires Dec(t2, None, w[n..]) == Done(v2, |w| - n)
    ensures DecFields([ExpOpt(t1, tag), Plain(t2)], [None, None], w) == FieldsRead([Some(v1), Some(v2)], |w|)
  {
    hide Dec, DecField, DecFields;
    var fs: seq<Field>, slots: seq<Slot> := [ExpOpt(t1, tag), Plain(t2)], [None, None];
    assert fs[1..] == [Plain(t2)] && slots[1..] == [None];
    LastField(t2, w[n..], v2);
    NextField(fs, slots, w, Some(v1), n);
  }

  lemma InsideDefinite(h: bytes, body: bytes)
    requires GetObject(h + body).Head? && !GetObject(h + body).indefinite
    requires GetObject(h + body).size == |h| && GetObject(h + body).len == |body|
    ensures Inside(GetObject(h + body), h + body) == body
  {
    hide GetObject;
  }

  lemma NextField(fs: seq<Field>, slots: seq<Slot>, w: bytes, s: Slot, n: nat)
    requires |fs| == |slots| > 0 && DecField(fs[0], slots[0], w) == Went(s, n)
    ensures DecFields(fs, slots, w) == match DecFields(fs[1..], slots[1..], w[n..])
                                       case FieldsStop(ss) => FieldsStop([s] + ss)
                                       case FieldsRead(ss, m) => FieldsRead([s] + ss, n + m)
  {
    hide DecField;
  }

  lemma LastField(t: Type, w: bytes, v: Value)
    requires Dec(t, None, w) == Done(v, |w|)
    ensures DecFields([Plain(t)], [None], w) == FieldsRead([Some(v)], |w|)
  {
    hide Dec;
    var fs: seq<Field>, slots: seq<Slot> := [Plain(t)], [None];
    NextField(fs, slots, w, Some(v), |w|);
  }

  /** These are not the octets the put macros write for the two fields. */
  lemma OverrunIsNotWritten(f: Field, slot: Slot, e2: bytes)
    requires f.ExpOpt? && FitsField(f, slot) && slot.Some? && e2 != []
    requires |Enc(f.t, slot.value)| + |e2| <= INT_MAX
    ensures Overrun(Enc(f.t, slot.value), f.mtag, e2) != EncField(f, slot) + e2
  {
    var e1 := Enc(f.t, slot.value);
    HeaderRoundTrip(true, |e1 + e2|, f.mtag, CONTEXT_SPECIFIC, e1 + e2);
    HeaderRoundTrip(true, |e1|, f.mtag, CONTEXT_SPECIFIC, e1 + e2);
    hide GetObject, PutObject, Enc;
    if Written(f, slot) {
      Slices(PutObject(true, |e1|, f.mtag, CONTEXT_SPECIFIC), e1, e2);
    }
  }
}
