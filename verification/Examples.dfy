/** Whole encodings, octet by octet. */
module Examples {
  import opened Octets
  import opened Header
  import opened HeaderCode
  import opened Schema
  import opened Encode
  import opened Decode
  import opened Grammar
  import opened Primitives
  import opened Theorems

  /** The types ASN1_NULL and ASN1_OCTET_STRING, by their universal tags. */
  ghost predicate AreTypes(nul: Type, str: Type) {
    nul.Leaf? && nul.codec == Primitive(5) && str.Leaf? && str.codec == Primitive(4)
  }

  // ------------------------------------------------------- an absent field

  /** A record of an optional NULL and an octet string. */
  function OptionalNull(nul: Type, str: Type): seq<Field> {
    [Opt(nul, 5), Plain(str)]
  }

  /** The octets 30 02 04 00 have the second field alone: the first is passed by. */
  lemma OptionalIsPassedBy(nul: Type, str: Type, w: bytes)
    requires AreTypes(nul, str) && w == [0x30, 2, 4, 0]
    ensures WellTagged(Record(OptionalNull(nul, str)))
    ensures Dec(Record(OptionalNull(nul, str)), None, w) == Done(Struct([None, Some(Atom([]))]), 4)
  {
    hide GetObject, DecFields, Dec, WellTagged;
    var fs, rest := OptionalNull(nul, str), w[2..4];
    OptionalIsWellTagged(nul, str);
    HeaderOf(w);
    StringAlone(str, rest);
    AbsentThenString(nul, str, rest);
    TwoRead(fs, w, rest);
  }

  lemma OptionalIsWellTagged(nul: Type, str: Type)
    requires AreTypes(nul, str)
    ensures WellTagged(Record(OptionalNull(nul, str)))
  {
    LastTagged(str);
    NextTagged(Opt(nul, 5), [Plain(str)]);
    assert OptionalNull(nul, str) == [Opt(nul, 5)] + [Plain(str)];
  }

  /** A field in front of well tagged ones that may not be taken for it. */
  lemma NextTagged(f: Field, rest: seq<Field>)
    requires WellTaggedField(f) && WellTaggedFields(rest) && forall b: byte | Follows(rest, b) :: !Names(f, b)
    ensures WellTaggedFields([f] + rest)
    ensures forall b: byte :: Follows([f] + rest, b) <==> Leads(f, b) || (!f.Plain? && Follows(rest, b))
  {
    hide WellTaggedField, Leads, Names;
    assert ([f] + rest)[1..] == rest;
  }

  lemma LastTagged(t: Type)
    requires WellTagged(t)
    ensures WellTaggedFields([Plain(t)]) && forall b: byte :: Follows([Plain(t)], b) <==> Starts(t, b)
  {
    hide WellTagged, Starts;
    assert [Plain(t)][1..] == [];
  }

  lemma TwoRead(fs: seq<Field>, w: bytes, rest: bytes)
    requires |fs| == 2 && |w| == 4 && rest == w[2..4] && GetObject(w) == Head(2, true, false, UNIVERSAL, 16, 2)
    requires DecFields(fs, [None, None], rest) == FieldsRead([None, Some(Atom([]))], 2)
    ensures Dec(Record(fs), None, w) == Done(Struct([None, Some(Atom([]))]), 4)
  {
    hide GetObject, DecFields;
    assert Target(fs, None) == [None, None];
  }

  lemma HeaderOf(w: bytes)
    requires |w| == 4 && w[0] == 0x30 && w[1] == 2
    ensures GetObject(w) == Head(2, true, false, UNIVERSAL, 16, 2)
  {
    assert w[1..][0] == 2;
  }

  lemma StringAlone(str: Type, rest: bytes)
    requires str.Leaf? && str.codec == Primitive(4) && rest == [4, 0]
    ensures Dec(str, None, rest) == Done(Atom([]), 2)
  {
    assert rest[1..][0] == 0;
    assert GetObject(rest) == Head(2, false, false, UNIVERSAL, 4, 0) && rest[2..2] == [];
  }

  lemma AbsentThenString(nul: Type, str: Type, rest: bytes)
    requires AreTypes(nul, str) && rest == [4, 0] && Dec(str, None, rest) == Done(Atom([]), 2)
    ensures DecFields(OptionalNull(nul, str), [None, None], rest) == FieldsRead([None, Some(Atom([]))], 2)
  {
    hide Dec;
    var fs, slots: seq<Slot> := OptionalNull(nul, str), [None, None];
    assert fs[1..] == [Plain(str)] && slots[1..] == [None] && rest[0..] == rest;
    LastField(str, rest, Atom([]));
    NextField(fs, slots, rest, None, 0);
  }

  // ------------------------------------------------------------- all fields

  /** A record with a field of every kind. */
  function EveryKind(nul: Type, str: Type): seq<Field> {
    [Opt(nul, 5), ImpOpt(nul, 1, 5), ExpOpt(nul, 2), ListOpt(List(nul, true, 17, UNIVERSAL)), Plain(str)]
  }

  /** Its tags can be told apart. */
  lemma EveryKindIsWellTagged(nul: Type, str: Type)
    requires AreTypes(nul, str)
    ensures WellTagged(Record(EveryKind(nul, str)))
  {
    hide WellTaggedFields, Follows;
    var f3 := ListOpt(List(nul, true, 17, UNIVERSAL));
    LastTagged(str);
    NextTagged(f3, [Plain(str)]);
    NextTagged(ExpOpt(nul, 2), [f3] + [Plain(str)]);
    NextTagged(ImpOpt(nul, 1, 5), [ExpOpt(nul, 2)] + ([f3] + [Plain(str)]));
    NextTagged(Opt(nul, 5), [ImpOpt(nul, 1, 5)] + ([ExpOpt(nul, 2)] + ([f3] + [Plain(str)])));
    assert EveryKind(nul, str) == [Opt(nul, 5)] + ([ImpOpt(nul, 1, 5)] + ([ExpOpt(nul, 2)] + ([f3] + [Plain(str)])));
  }

  /** What is written for each field: the tags 5, [1] IMPLICIT, [2] EXPLICIT, SET
      OF and 4. */
  lemma EachKind(nul: Type, str: Type)
    requires AreTypes(nul, str)
    ensures var one, two := Some(Atom([])), Some(Items([Atom([])]));
            var fs := EveryKind(nul, str);
            && FitsField(fs[0], one) && EncField(fs[0], one) == [5, 0]
            && FitsField(fs[1], one) && EncField(fs[1], one) == [0x81, 0]
            && FitsField(fs[2], one) && EncField(fs[2], one) == [0xa2, 2, 5, 0]
            && FitsField(fs[3], two) && EncField(fs[3], two) == [0x31, 2, 5, 0]
            && FitsField(fs[4], one) && EncField(fs[4], one) == [4, 0]
  {
    hide Fits, Enc;
    EmptyObject(nul, 5);
    EmptyObject(str, 4);
    OneElement(nul);
    EachField(nul, str);
  }

  lemma EmptyObject(t: Type, typ: LowTag)
    requires t.Leaf? && t.codec == Primitive(typ)
    ensures Fits(t, Atom([])) && Enc(t, Atom([])) == [typ, 0]
  {
    hide EncPrimitive;
    NullOctets(typ);
  }

  lemma EachField(nul: Type, str: Type)
    requires Fits(nul, Atom([])) && Enc(nul, Atom([])) == [5, 0] && Fits(str, Atom([])) && Enc(str, Atom([])) == [4, 0]
    requires var t, v := List(nul, true, 17, UNIVERSAL), Items([Atom([])]);
             Fits(t, v) && Enc(t, v) == [0x31, 2, 5, 0]
    ensures var one, two := Some(Atom([])), Some(Items([Atom([])]));
            && EncField(Opt(nul, 5), one) == [5, 0] && EncField(ImpOpt(nul, 1, 5), one) == [0x81, 0]
            && EncField(ExpOpt(nul, 2), one) == [0xa2, 2, 5, 0] && EncField(Plain(str), one) == [4, 0]
            && EncField(ListOpt(List(nul, true, 17, UNIVERSAL)), two) == [0x31, 2, 5, 0]
  {
    hide Fits, Enc, PutObject, Retag;
    HeaderOctets();
    Retagged();
  }

  lemma Retagged()
    ensures Retag([5, 0], 1) == [0x81, 0]
  {
  }

  lemma NullOctets(typ: LowTag)
    ensures EncPrimitive(typ, []) == [typ, 0]
  {
  }

  lemma OneElement(nul: Type)
    requires nul.Leaf? && nul.codec == Primitive(5) && Fits(nul, Atom([])) && Enc(nul, Atom([])) == [5, 0]
    ensures Fits(List(nul, true, 17, UNIVERSAL), Items([Atom([])]))
    ensures Enc(List(nul, true, 17, UNIVERSAL), Items([Atom([])])) == [0x31, 2, 5, 0]
  {
    hide PutObject;
    assert EncEach(nul, [Atom([])]) == [[5, 0]];
    assert SortOctets([[5, 0]]) == [[5, 0]];
    assert Flatten([[5, 0]]) == [5, 0];
    HeaderOctets();
  }

  lemma HeaderOctets()
    ensures PutObject(true, 2, 17, UNIVERSAL) == [0x31, 2] && PutObject(true, 14, 16, UNIVERSAL) == [0x30, 14]
    ensures PutObject(true, 6, 17, UNIVERSAL) == [0x31, 6] && PutObject(true, 2, 2, CONTEXT_SPECIFIC) == [0xa2, 2]
  {
  }

  /** The whole record with every field set, and with every optional one NULL. */
  lemma EveryKindOctets(nul: Type, str: Type)
    requires AreTypes(nul, str)
    ensures var one, two := Some(Atom([])), Some(Items([Atom([])]));
            var t, v := Record(EveryKind(nul, str)), Struct([one, one, one, two, one]);
            && Fits(t, v)
            && Enc(t, v) == [0x30, 14, 5, 0, 0x81, 0, 0xa2, 2, 5, 0, 0x31, 2, 5, 0, 4, 0]
  {
    hide EncField, Enc, FitsField, PutObject;
    EachKind(nul, str);
    HeaderOctets();
    var one, two := Some(Atom([])), Some(Items([Atom([])]));
    var fs, ss: seq<Slot> := EveryKind(nul, str), [one, one, one, two, one];
    FieldsOctets(fs, ss, [5, 0], [0x81, 0], [0xa2, 2, 5, 0], [0x31, 2, 5, 0], [4, 0]);
    RecordOctets(fs, ss, [5, 0, 0x81, 0, 0xa2, 2, 5, 0, 0x31, 2, 5, 0, 4, 0]);
  }

  lemma RecordOctets(fs: seq<Field>, ss: seq<Slot>, body: bytes)
    requires FitsFields(fs, ss) && EncFields(fs, ss) == body
    ensures Fits(Record(fs), Struct(ss))
    ensures Enc(Record(fs), Struct(ss)) == PutObject(true, |body|, 16, 0) + body
  {
    hide PutObject;
  }

  lemma FieldsOctets(fs: seq<Field>, ss: seq<Slot>, a: bytes, b: bytes, c: bytes, d: bytes, e: bytes)
    requires |fs| == |ss| == 5 && forall i | 0 <= i < 5 :: FitsField(fs[i], ss[i])
    requires EncField(fs[0], ss[0]) == a && EncField(fs[1], ss[1]) == b && EncField(fs[2], ss[2]) == c
    requires EncField(fs[3], ss[3]) == d && EncField(fs[4], ss[4]) == e
    ensures FitsFields(fs, ss) && EncFields(fs, ss) == a + (b + (c + (d + e)))
  {
    hide EncField, FitsField;
    assert FitsFields(fs[5..], ss[5..]) && EncFields(fs[5..], ss[5..]) == [];
    Step(fs, ss, 4);
    assert e + [] == e;
    Step(fs, ss, 3);
    Step(fs, ss, 2);
    Step(fs, ss, 1);
    Step(fs, ss, 0);
    assert fs[0..] == fs && ss[0..] == ss;
  }

  lemma Step(fs: seq<Field>, ss: seq<Slot>, i: nat)
    requires |fs| == |ss| && i < |fs| && FitsField(fs[i], ss[i]) && FitsFields(fs[i + 1..], ss[i + 1..])
    ensures FitsFields(fs[i..], ss[i..])
    ensures EncFields(fs[i..], ss[i..]) == EncField(fs[i], ss[i]) + EncFields(fs[i + 1..], ss[i + 1..])
  {
    hide EncField, FitsField;
    assert fs[i..][1..] == fs[i + 1..] && ss[i..][1..] == ss[i + 1..];
  }

  // -------------------------------------------------------------- a SET OF

  /** The strings 02 and 01 in a SET OF are written with 01 first. */
  lemma SetIsAscending(str: Type)
    requires str.Leaf? && str.codec == Primitive(4)
    ensures var t, v := List(str, true, 17, UNIVERSAL), Items([Atom([2]), Atom([1])]);
            Fits(t, v) && Enc(t, v) == [0x31, 6, 4, 1, 1, 4, 1, 2]
  {
    hide PutObject;
    HeaderOctets();
    OneOctet(2);
    OneOctet(1);
    var xs := [Atom([2]), Atom([1])];
    assert Enc(str, xs[0]) == [4, 1, 2] && Enc(str, xs[1]) == [4, 1, 1];
    assert EncEach(str, xs) == [[4, 1, 2], [4, 1, 1]];
    TwoSorted();
  }

  lemma OneOctet(x: byte)
    ensures EncPrimitive(4, [x]) == [4, 1, x]
  {
  }

  lemma TwoSorted()
    ensures Flatten(SortOctets([[4, 1, 2], [4, 1, 1]])) == [4, 1, 1, 4, 1, 2]
  {
    var a: bytes, b: bytes := [4, 1, 2], [4, 1, 1];
    var es: seq<bytes> := [a, b];
    assert a[1..] == [1, 2] && b[1..] == [1, 1] && a[1..][1..] == [2] && b[1..][1..] == [1];
    assert es[1..] == [b] && es[1..][1..] == [];
    assert SortOctets([b]) == [b];
    assert !Before(a, b);
    assert [b][1..] == [];
    assert Insert(a, [b]) == [b, a];
    assert SortOctets(es) == [b, a];
    assert [b, a][1..] == [a] && [a][1..] == [];
    assert Flatten([a]) == a + [];
  }

  /** The length -1, which ASN1_object_size gives for a sum that is too long, goes
      into the header as the octet ff. */
  lemma NegativeLength()
    ensures PutAny(1, -1, 16, UNIVERSAL) == [0x30, 0xff]
  {
  }

  // ----------------------------------------------------- indefinite lengths

  /** A record with a NULL in it, and length 0x80, is read through its two zero
      octets. */
  lemma IndefiniteRecord(nul: Type, w: bytes)
    requires nul.Leaf? && nul.codec == Primitive(5) && w == [0x30, 0x80, 5, 0, 0, 0]
    ensures Dec(Record([Plain(nul)]), None, w) == Done(Struct([Some(Atom([]))]), 6)
  {
    assert w[1..][0] == 0x80;
    assert GetObject(w) == Head(2, true, true, UNIVERSAL, 16, 0);
    var rest: bytes := [5, 0, 0, 0];
    assert w[2..] == rest;
    NullRead(nul, rest);
    hide Dec, GetObject;
    var fs: seq<Field>, slots: seq<Slot> := [Plain(nul)], [None];
    assert Target(fs, None) == slots && slots[1..] == [];
    NextField(fs, slots, rest, Some(Atom([])), 2);
    assert fs[1..] == [];
    assert DecFields(fs, slots, rest) == FieldsRead([Some(Atom([]))], 2);
    assert rest[2..] == [0, 0];
    IndefiniteEnds(fs, w, rest);
  }

  lemma NullRead(nul: Type, rest: bytes)
    requires nul.Leaf? && nul.codec == Primitive(5) && rest == [5, 0, 0, 0]
    ensures Dec(nul, None, rest) == Done(Atom([]), 2)
  {
    assert GetObject(rest) == Head(2, false, false, UNIVERSAL, 5, 0) && rest[2..2] == [];
  }

  lemma IndefiniteEnds(fs: seq<Field>, w: bytes, rest: bytes)
    requires GetObject(w) == Head(2, true, true, UNIVERSAL, 16, 0) && w[2..] == rest && |rest| == 4
    requires rest[2..] == [0, 0] && |fs| == 1 && Target(fs, None) == [None]
    requires DecFields(fs, [None], rest) == FieldsRead([Some(Atom([]))], 2)
    ensures Dec(Record(fs), None, w) == Done(Struct([Some(Atom([]))]), 6)
  {
    hide GetObject, DecFields;
  }

  /** The header of a list need not be that of a constructed encoding. */
  lemma PrimitiveHeaderOfList(e: Type, w: bytes)
    requires w == [0x11, 0]
    ensures Dec(List(e, true, 17, UNIVERSAL), None, w) == Done(Items([]), 2)
  {
    assert w[1..][0] == 0;
    assert GetObject(w) == Head(2, false, false, UNIVERSAL, 17, 0);
    assert w[2..2] == [];
  }
}
