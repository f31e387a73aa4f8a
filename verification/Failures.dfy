/** What a call that fails leaves in the object it was given. The macros fill
    the caller's object field by field and do not undo what they did. */
module Failures {
  import opened Octets
  import opened Header
  import opened Schema
  import opened Decode
  import opened RoundTrip
  import opened Theorems
  import opened Primitives

  // ------------------------------------------------------- where a run stops

  /** How many get macros succeed. */
  function Stops(fs: seq<Field>, rest: bytes): (k: nat)
    ensures k <= |fs|
  {
    if fs == [] then 0
    else
      var step := DecField(fs[0], None, rest);
      if step.Stop? then 0 else 1 + Stops(fs[1..], rest[step.n..])
  }

  /** The content that is left for the get macro of field `i`. */
  function RestAt(fs: seq<Field>, rest: bytes, i: nat): bytes
    requires i <= Stops(fs, rest)
  {
    if i == 0 then rest else RestAt(fs[1..], rest[DecField(fs[0], None, rest).n..], i - 1)
  }

  /** The header alone turns the call away. */
  predicate Refused(t: Type, w: bytes) {
    var h := GetObject(w);
    h.Bad? || match t
              case Leaf(_) => false
              case Record(_) => h.tag != SEQUENCE || h.cls != UNIVERSAL || !h.constructed
              case List(_, _, tag, cls) => h.tag != tag || h.cls != cls
  }

  /** Such a call leaves the object alone. */
  lemma RefusedKeeps(t: Type, slot: Slot, w: bytes)
    requires Refused(t, w)
    ensures Dec(t, slot, w) == Fail(slot)
  {
    if t.Leaf? {
      assert ReadsOne(t.codec, w);
    }
  }

  // ------------------------------------------------- when the object is kept

  /** The field is skipped, or what is read brings its object nothing new. */
  predicate SameField(f: Field, slot: Slot, rest: bytes) {
    Enters(f, rest) ==>
      var r := Dec(f.t, None, Seen(f, rest));
      slot.Some? && r.Done? && Over(f.t, slot, r.v) == slot.value
  }

  /** For calls that fail: a NULL slot and a leaf stay; a list stays when its
      header is refused; a record stays when its header is refused, or when the
      fields before the one that fails bring nothing new and that field keeps
      its own object. */
  ghost predicate KeepsObject(t: Type, slot: Slot, w: bytes)
    requires FitsSlot(t, slot)
    decreases t, 1
  {
    slot.None? || t.Leaf? || Refused(t, w) ||
    (t.Record? && KeepsFields(t.fields, slot.value.fields, Content(GetObject(w), w)))
  }

  ghost predicate KeepsFields(fs: seq<Field>, slots: seq<Slot>, rest: bytes)
    requires FitsFields(fs, slots)
    decreases fs, 2
  {
    var k := Stops(fs, rest);
    SlotsFit(fs, slots);
    && (forall i | 0 <= i < k :: SameField(fs[i], slots[i], RestAt(fs, rest, i)))
    && (k < |fs| ==> KeepsField(fs[k], slots[k], RestAt(fs, rest, k)))
  }

  /** The field that fails: its d2i has failed, or the end-of-contents behind an
      EXPLICIT tag is missing. */
  ghost predicate KeepsField(f: Field, slot: Slot, rest: bytes)
    requires FitsField(f, slot)
    decreases f, 1
  {
    Enters(f, rest) ==>
      if Dec(f.t, None, Seen(f, rest)).Done? then SameField(f, slot, rest) else KeepsObject(f.t, slot, Seen(f, rest))
  }

  lemma {:induction false} SlotsFit(fs: seq<Field>, slots: seq<Slot>)
    requires FitsFields(fs, slots)
    ensures |fs| == |slots| && forall i | 0 <= i < |fs| :: FitsField(fs[i], slots[i])
  {
    hide FitsField;
    if fs != [] {
      SlotsFit(fs[1..], slots[1..]);
      forall i | 0 <= i < |fs| ensures FitsField(fs[i], slots[i]) {
        if i > 0 {
          assert fs[i] == fs[1..][i - 1] && slots[i] == slots[1..][i - 1];
        }
      }
    }
  }

  /** A call that fails leaves the caller's object as it was under exactly that
      condition. */
  lemma {:induction false} FailureKeepsObject(t: Type, slot: Slot, w: bytes)
    requires FitsSlot(t, slot) && Dec(t, slot, w).Fail?
    ensures Dec(t, slot, w).slot == slot <==> KeepsObject(t, slot, w)
    decreases t, 1
  {
    hide GetObject, DecFields, DecItems, KeepsFields, Fits;
    DecFits(t, slot, w);
    if Refused(t, w) {
      RefusedKeeps(t, slot, w);
    } else if slot.Some? && t.Record? {
      TargetIsOwn(t.fields, slot);
      FailureKeepsFields(t.fields, slot.value.fields, Content(GetObject(w), w));
    }
  }

  lemma TargetIsOwn(fs: seq<Field>, slot: Slot)
    requires slot.Some? && Fits(Record(fs), slot.value)
    ensures slot.value.Struct? && FitsFields(fs, slot.value.fields) && Target(fs, slot) == slot.value.fields
  {
    LengthsAgree(fs, slot.value.fields);
  }

  lemma {:induction false} FailureKeepsFields(fs: seq<Field>, slots: seq<Slot>, rest: bytes)
    requires FitsFields(fs, slots)
    ensures |fs| == |slots| && (DecFields(fs, slots, rest).slots == slots <==> KeepsFields(fs, slots, rest))
    decreases fs, 0
  {
    hide DecField, SameField, KeepsField, FitsField;
    SlotsFit(fs, slots);
    if fs != [] {
      var step := DecField(fs[0], None, rest);
      FieldSteps(fs[0], slots[0], rest);
      if step.Went? {
        FailureKeepsFields(fs[1..], slots[1..], rest[step.n..]);
        KeepsNext(fs, slots, rest);
      }
      assert slots == [slots[0]] + slots[1..];
    }
  }

  /** The first field has been read or skipped: the rest decides. */
  lemma KeepsNext(fs: seq<Field>, slots: seq<Slot>, rest: bytes)
    requires fs != [] && FitsFields(fs, slots) && DecField(fs[0], None, rest).Went?
    ensures var later := rest[DecField(fs[0], None, rest).n..];
            KeepsFields(fs, slots, rest)
            <==> SameField(fs[0], slots[0], rest) && KeepsFields(fs[1..], slots[1..], later)
  {
    hide DecField, SameField, KeepsField, FitsField;
    var later := rest[DecField(fs[0], None, rest).n..];
    var k := Stops(fs, rest);
    SlotsFit(fs, slots);
    SlotsFit(fs[1..], slots[1..]);
    assert k == 1 + Stops(fs[1..], later);
    assert forall i | 0 < i <= k :: RestAt(fs, rest, i) == RestAt(fs[1..], later, i - 1);
    assert forall i | 0 < i < |fs| :: fs[i] == fs[1..][i - 1] && slots[i] == slots[1..][i - 1];
    if KeepsFields(fs[1..], slots[1..], later) && SameField(fs[0], slots[0], rest) {
      forall i | 0 <= i < k ensures SameField(fs[i], slots[i], RestAt(fs, rest, i)) {
        if i > 0 {
          assert SameField(fs[1..][i - 1], slots[1..][i - 1], RestAt(fs[1..], later, i - 1));
        }
      }
    }
    if KeepsFields(fs, slots, rest) {
      assert SameField(fs[0], slots[0], RestAt(fs, rest, 0));
      forall i | 0 <= i < k - 1 ensures SameField(fs[1..][i], slots[1..][i], RestAt(fs[1..], later, i)) {
        assert SameField(fs[i + 1], slots[i + 1], RestAt(fs, rest, i + 1));
      }
    }
  }

  /** One get macro: the slot is as it was under the condition for a field that
      is read, or for one that fails. */
  lemma {:induction false} FieldSteps(f: Field, slot: Slot, rest: bytes)
    requires FitsField(f, slot)
    ensures var r, anew := DecField(f, slot, rest), DecField(f, None, rest);
            && r.Went? == anew.Went? && (r.Went? ==> r.n == anew.n)
            && (r.Went? ==> (r.slot == slot <==> SameField(f, slot, rest)))
            && (r.Stop? ==> (r.slot == slot <==> KeepsField(f, slot, rest)))
    decreases f, 1
  {
    hide Dec, GetObject, Inside, Untag, Over, KeepsObject, Fits;
    DecFieldIsOver(f, slot, rest);
    if Enters(f, rest) {
      EnterStep(f, slot, rest);
      EnterStep(f, None, rest);
      DecIsOver(f.t, slot, Seen(f, rest));
      if Dec(f.t, slot, Seen(f, rest)).Fail? {
        FailureKeepsObject(f.t, slot, Seen(f, rest));
      }
    }
  }

  /** A list that is set is freed by a failing call unless its header is refused. */
  lemma FailedList(t: Type, v: Value, w: bytes)
    requires t.List? && Fits(t, v) && Dec(t, Some(v), w).Fail?
    ensures Dec(t, Some(v), w).slot == (if Refused(t, w) then Some(v) else None)
  {
    hide GetObject, DecItems;
  }

  /** The fields behind the one that fails are not touched. */
  lemma {:induction false} FieldsBehindStay(fs: seq<Field>, slots: seq<Slot>, rest: bytes)
    requires |fs| == |slots| && Stops(fs, rest) < |fs|
    ensures var k := Stops(fs, rest);
            DecFields(fs, slots, rest).FieldsStop? && DecFields(fs, slots, rest).slots[k + 1..] == slots[k + 1..]
    decreases fs
  {
    hide DecField;
    var step, own := DecField(fs[0], None, rest), DecField(fs[0], slots[0], rest);
    DecFieldIsOver(fs[0], slots[0], rest);
    if step.Went? {
      FieldsBehindStay(fs[1..], slots[1..], rest[step.n..]);
      var k := Stops(fs[1..], rest[step.n..]);
      DropFirst(own.slot, DecFields(fs[1..], slots[1..], rest[step.n..]).slots, k + 1);
      assert slots[1..][k + 1..] == slots[k + 2..];
    } else {
      DropFirst(own.slot, slots[1..], 0);
    }
  }

  lemma DropFirst(s: Slot, ss: seq<Slot>, k: nat)
    requires k <= |ss|
    ensures ([s] + ss)[k + 1..] == ss[k..]
  {
  }

  /** The first field whose guard takes what is left, when all before it skip. */
  function FirstEntered(fs: seq<Field>, rest: bytes): (j: nat)
    ensures j <= |fs| && (j < |fs| ==> Enters(fs[j], rest))
  {
    if fs == [] || Enters(fs[0], rest) then 0 else 1 + FirstEntered(fs[1..], rest)
  }

  /** For an object with every field NULL only one d2i decides: after a failing
      call they are all still NULL exactly when the header is refused, no guard
      takes the first octet of the contents, or the d2i behind the first guard
      that does refuses what it is given. */
  lemma FailureKeepsNothing(fs: seq<Field>, slots: seq<Slot>, w: bytes)
    requires |slots| == |fs| && forall i | 0 <= i < |fs| :: slots[i] == None
    requires Dec(Record(fs), Some(Struct(slots)), w).Fail?
    ensures Dec(Record(fs), Some(Struct(slots)), w).slot == Some(Struct(slots)) <==>
            Refused(Record(fs), w) ||
            var rest := Content(GetObject(w), w);
            var j := FirstEntered(fs, rest);
            j < |fs| ==> Dec(fs[j].t, None, Seen(fs[j], rest)).Fail?
  {
    hide GetObject, DecFields, Dec, FirstEntered;
    var t, slot := Record(fs), Some(Struct(slots));
    if Refused(t, w) {
      RefusedKeeps(t, slot, w);
    } else {
      NothingIsKept(fs, slots, Content(GetObject(w), w));
      RecordFails(fs, slots, w);
    }
  }

  lemma RecordFails(fs: seq<Field>, slots: seq<Slot>, w: bytes)
    requires |slots| == |fs| && !Refused(Record(fs), w)
    ensures var r := Dec(Record(fs), Some(Struct(slots)), w);
            r.Fail? ==> r.slot == Some(Struct(DecFields(fs, slots, Content(GetObject(w), w)).slots))
  {
    hide GetObject, DecFields;
  }

  lemma {:induction false} NothingIsKept(fs: seq<Field>, slots: seq<Slot>, rest: bytes)
    requires |slots| == |fs| && forall i | 0 <= i < |fs| :: slots[i] == None
    ensures DecFields(fs, slots, rest).slots == slots <==>
            var j := FirstEntered(fs, rest);
            j < |fs| ==> Dec(fs[j].t, None, Seen(fs[j], rest)).Fail?
    decreases fs
  {
    hide Dec, Enter, Seen;
    if fs != [] {
      if Enters(fs[0], rest) {
        EnterStep(fs[0], None, rest);
        if Dec(fs[0].t, None, Seen(fs[0], rest)).Fail? {
          FailedNull(fs[0].t, Seen(fs[0], rest));
        }
        var step := DecField(fs[0], slots[0], rest);
        assert DecFields(fs, slots, rest).slots[0] == step.slot;
        assert slots == [slots[0]] + slots[1..];
      } else {
        assert rest[0..] == rest;
        NothingIsKept(fs[1..], slots[1..], rest);
        assert slots == [slots[0]] + slots[1..];
        assert DecFields(fs, slots, rest).slots[1..] == DecFields(fs[1..], slots[1..], rest).slots;
      }
    }
  }

  lemma FailedNull(t: Type, w: bytes)
    requires Dec(t, None, w).Fail?
    ensures Dec(t, None, w).slot == None
  {
    DecFits(t, None, w);
  }

  // ------------------------------------------------------------- an example

  /** A record of two NULL fields, the first one optional, given an object with
      neither set and the octets 30 02 05 00: the call fails, because the second
      field is missing, and leaves the first field set. */
  lemma HalfRead()
    ensures KeepsContract(Primitive(5))
    ensures var nul := Leaf(Primitive(5));
            var fs := [Opt(nul, 5), Plain(nul)];
            Dec(Record(fs), Some(Struct([None, None])), [0x30, 2, 5, 0]) == Fail(Some(Struct([Some(Atom([])), None])))
  {
    PrimitiveKeepsContract(5);
    var nul := Leaf(Primitive(5));
    var fs: seq<Field>, slots: seq<Slot> := [Opt(nul, 5), Plain(nul)], [None, None];
    var w: bytes := [0x30, 2, 5, 0];
    assert GetObject(w) == Head(2, true, false, UNIVERSAL, 16, 2) && w[2..4] == [5, 0];
    TwoNulls(nul, fs, slots, w[2..4]);
    assert Target(fs, Some(Struct(slots))) == slots;
  }

  lemma TwoNulls(nul: Type, fs: seq<Field>, slots: seq<Slot>, rest: bytes)
    requires nul.Leaf? && nul.codec == Primitive(5) && fs == [Opt(nul, 5), Plain(nul)] && slots == [None, None]
    requires rest == [5, 0]
    ensures DecFields(fs, slots, rest) == FieldsStop([Some(Atom([])), None])
  {
    assert GetObject(rest) == Head(2, false, false, UNIVERSAL, 5, 0) && rest[2..2] == [];
    assert fs[1..] == [Plain(nul)] && slots[1..] == [None];
    assert Dec(nul, None, rest) == Done(Atom([]), 2);
    assert rest[2..] == [];
    NoOctets(nul, None);
    assert DecFields(fs[1..], slots[1..], []) == FieldsStop([None]);
  }
}
