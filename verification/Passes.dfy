/** The two passes of the I2D macros as they are computed in ints: what the length
    pass returns, and what the put pass writes with the lengths it was given.
    ASN1_object_size answers -1 when a sum reaches INT_MAX, and the len macros add
    that up like any other length. */
module Passes {
  import opened Octets
  import opened Header
  import opened HeaderCode
  import opened Schema
  import opened Encode
  import opened Canonical
  import opened Primitives

  // --------------------------------------------------------- the length pass

  predicate IsInt(n: int) {
    -INT_MAX - 1 <= n <= INT_MAX
  }

  /** What ASN1_object_size returns for constructed contents of this length. */
  function SizeOf(length: int, tag: Tag): int {
    if 0 <= length && HeaderSize(length, tag) + length < INT_MAX then HeaderSize(length, tag) + length else -1
  }

  /** What an i2d function returns without a buffer; nothing when some int on the
      way overflows, for which C has no meaning. */
  function Announced(t: Type, v: Value): (r: Option<int>)
    requires Fits(t, v)
    ensures r.Some? ==> IsInt(r.value)
    decreases t, 1
  {
    match t
    case Leaf(c) => if |c.enc(v.contents)| <= INT_MAX then Some(|c.enc(v.contents)|) else None
    case Record(fs) =>
      var ret := AnnouncedFields(fs, v.fields, 0);
      if ret.Some? then Some(SizeOf(ret.value, SEQUENCE)) else None
    case List(e, _, tag, _) =>
      var ret := AnnouncedItems(e, v.items, 0);
      if ret.Some? then Some(SizeOf(ret.value, tag)) else None
  }

  /** The len macros in turn; `ret` is the sum so far. */
  function AnnouncedFields(fs: seq<Field>, slots: seq<Slot>, ret: int): (r: Option<int>)
    requires FitsFields(fs, slots) && IsInt(ret)
    ensures r.Some? ==> IsInt(r.value)
    decreases fs, 0
  {
    if fs == [] then Some(ret)
    else
      var n := AnnouncedField(fs[0], slots[0]);
      if n.None? || !IsInt(ret + n.value) then None else AnnouncedFields(fs[1..], slots[1..], ret + n.value)
  }

  function AnnouncedField(f: Field, slot: Slot): (r: Option<int>)
    requires FitsField(f, slot)
    ensures r.Some? ==> IsInt(r.value)
    decreases f, 1
  {
    if !Written(f, slot) then Some(0)
    else
      var n := Announced(f.t, slot.value);
      if n.Some? && f.ExpOpt? then Some(SizeOf(n.value, f.mtag)) else n
  }

  function AnnouncedItems(e: Type, xs: seq<Value>, ret: int): (r: Option<int>)
    requires (forall x <- xs :: Fits(e, x)) && IsInt(ret)
    ensures r.Some? ==> IsInt(r.value)
    decreases e, 2, |xs|
  {
    if xs == [] then Some(ret)
    else
      var n := Announced(e, xs[0]);
      if n.None? || !IsInt(ret + n.value) then None else AnnouncedItems(e, xs[1..], ret + n.value)
  }

  // ------------------------------------------------------------ the put pass

  function IntOf(n: Option<int>): int {
    if n.Some? then n.value else 0
  }

  /** What an i2d function writes into a buffer. */
  function Output(t: Type, v: Value): (r: bytes)
    requires Fits(t, v)
    ensures r != []
    decreases t, 1
  {
    match t
    case Leaf(c) =>
      assert WritesBack(c, v.contents);
      c.enc(v.contents)
    case Record(fs) =>
      PutAny(1, IntOf(AnnouncedFields(fs, v.fields, 0)), SEQUENCE, UNIVERSAL) + OutputFields(fs, v.fields)
    case List(e, isSet, tag, cls) =>
      var es := OutputEach(e, v.items);
      PutAny(1, IntOf(AnnouncedItems(e, v.items, 0)), tag, cls) + Flatten(if isSet then SortOctets(es) else es)
  }

  function OutputEach(e: Type, xs: seq<Value>): (r: seq<bytes>)
    requires forall x <- xs :: Fits(e, x)
    ensures |r| == |xs| && forall i | 0 <= i < |xs| :: r[i] == Output(e, xs[i])
    decreases e, 2, |xs|
  {
    if xs == [] then [] else [Output(e, xs[0])] + OutputEach(e, xs[1..])
  }

  function OutputFields(fs: seq<Field>, slots: seq<Slot>): bytes
    requires FitsFields(fs, slots)
    decreases fs, 0
  {
    if fs == [] then [] else OutputField(fs[0], slots[0]) + OutputFields(fs[1..], slots[1..])
  }

  function OutputField(f: Field, slot: Slot): bytes
    requires FitsField(f, slot)
    decreases f, 1
  {
    if !Written(f, slot) then []
    else
      var e := Output(f.t, slot.value);
      match f
      case ImpOpt(_, tag, _) => Retag(e, tag)
      case ExpOpt(t, mtag) => PutAny(1, IntOf(Announced(t, slot.value)), mtag, CONTEXT_SPECIFIC) + e
      case _ => e
  }

  // ---------------------------------------------------- when the passes agree

  predicate Small(a: bytes, b: bytes) {
    |a| < INT_MAX || |b| < INT_MAX
  }

  lemma HeaderAdds(body: bytes, n: int, tag: Tag, cls: Class)
    requires n == |body|
    ensures var w := PutObject(true, |body|, tag, cls) + body;
            && PutAny(1, n, tag, cls) + body == w
            && (|w| < INT_MAX ==> SizeOf(n, tag) == |w|)
            && (|w| >= INT_MAX ==> SizeOf(n, tag) == -1)
  {
    hide PutObject, HeaderSize;
  }

  /** As long as one of the two stays below INT_MAX, the put pass writes the
      encoding and the length pass returns its length. */
  lemma {:induction false} PassesAgree(t: Type, v: Value)
    requires Fits(t, v) && Small(Output(t, v), Enc(t, v))
    ensures Output(t, v) == Enc(t, v) && Announced(t, v) == Some(|Enc(t, v)|)
    decreases t, 1
  {
    hide PutAny, PutObject, HeaderSize, SizeOf;
    match t
    case Leaf(_) =>
    case Record(fs) =>
      FieldsAgree(fs, v.fields, 0);
      HeaderAdds(EncFields(fs, v.fields), |EncFields(fs, v.fields)|, SEQUENCE, UNIVERSAL);
    case List(e, isSet, tag, cls) =>
      SortKeepsSize(OutputEach(e, v.items));
      SortKeepsSize(EncEach(e, v.items));
      ItemsAgree(e, v.items, 0);
      var es := EncEach(e, v.items);
      var body := Flatten(if isSet then SortOctets(es) else es);
      HeaderAdds(body, |body|, tag, cls);
  }

  lemma {:induction false} ItemsAgree(e: Type, xs: seq<Value>, ret: nat)
    requires forall x <- xs :: Fits(e, x)
    requires ret + |Flatten(OutputEach(e, xs))| < INT_MAX || ret + |Flatten(EncEach(e, xs))| < INT_MAX
    ensures OutputEach(e, xs) == EncEach(e, xs)
    ensures AnnouncedItems(e, xs, ret) == Some(ret + |Flatten(EncEach(e, xs))|)
    decreases e, 2, |xs|
  {
    hide Output, Enc, Announced, Fits;
    if xs != [] {
      FlattenCons(OutputEach(e, xs));
      FlattenCons(EncEach(e, xs));
      assert OutputEach(e, xs)[1..] == OutputEach(e, xs[1..]) && EncEach(e, xs)[1..] == EncEach(e, xs[1..]);
      PassesAgree(e, xs[0]);
      ItemsAgree(e, xs[1..], ret + |Enc(e, xs[0])|);
    }
  }

  lemma FlattenCons(es: seq<bytes>)
    requires es != []
    ensures Flatten(es) == es[0] + Flatten(es[1..])
  {
  }

  lemma {:induction false} FieldsAgree(fs: seq<Field>, slots: seq<Slot>, ret: nat)
    requires FitsFields(fs, slots)
    requires ret + |OutputFields(fs, slots)| < INT_MAX || ret + |EncFields(fs, slots)| < INT_MAX
    ensures OutputFields(fs, slots) == EncFields(fs, slots)
    ensures AnnouncedFields(fs, slots, ret) == Some(ret + |EncFields(fs, slots)|)
    decreases fs, 0
  {
    hide OutputField, EncField, AnnouncedField, FitsField;
    if fs != [] {
      FieldAgrees(fs[0], slots[0]);
      FieldsAgree(fs[1..], slots[1..], ret + |EncField(fs[0], slots[0])|);
    }
  }

  lemma {:induction false} FieldAgrees(f: Field, slot: Slot)
    requires FitsField(f, slot) && Small(OutputField(f, slot), EncField(f, slot))
    ensures OutputField(f, slot) == EncField(f, slot)
    ensures AnnouncedField(f, slot) == Some(|EncField(f, slot)|)
    decreases f, 1
  {
    hide Output, Enc, Announced, PutAny, PutObject, HeaderSize, SizeOf;
    if Written(f, slot) {
      PassesAgree(f.t, slot.value);
      if f.ExpOpt? {
        HeaderAdds(Enc(f.t, slot.value), |Enc(f.t, slot.value)|, f.mtag, CONTEXT_SPECIFIC);
      }
    }
  }

  /** The exact condition. When no int overflows, the length pass of a record or
      list returns as many octets as the put pass writes if and only if the
      encoding is smaller than INT_MAX; and then the put pass writes it. */
  lemma LengthsAgreeExactly(t: Type, v: Value)
    requires Fits(t, v) && Announced(t, v).Some? && !t.Leaf?
    ensures Announced(t, v).value == |Output(t, v)| <==> |Enc(t, v)| < INT_MAX
    ensures |Enc(t, v)| < INT_MAX ==> Output(t, v) == Enc(t, v)
  {
    hide Output, Enc;
    if Small(Output(t, v), Enc(t, v)) {
      PassesAgree(t, v);
    }
  }

  /** An EXPLICIT field whose wrapper reaches INT_MAX, behind a NULL: the length
      pass returns 3, and the put pass writes more than INT_MAX octets. */
  lemma TooLongForItsWrapper(nul: Type, octets: Type, a: Contents)
    requires nul.Leaf? && nul.codec == Primitive(5) && octets.Leaf? && octets.codec == Primitive(4)
    requires |a| == INT_MAX - 6 && IsContents(a)
    ensures var t := Record([Plain(nul), ExpOpt(octets, 0)]);
            var v := Struct([Some(Atom([])), Some(Atom(a))]);
            Fits(t, v) && Announced(t, v) == Some(3) && |Output(t, v)| > INT_MAX
  {
    hide Output, OutputField, AnnouncedField, EncPrimitive;
    var fs: seq<Field>, slots: seq<Slot> := [Plain(nul), ExpOpt(octets, 0)], [Some(Atom([])), Some(Atom(a))];
    assert fs[1..] == [ExpOpt(octets, 0)] && slots[1..] == [Some(Atom(a))];
    assert fs[1..][1..] == [] && slots[1..][1..] == [];
    assert FitsField(fs[0], slots[0]) && FitsField(fs[1], slots[1]);
    assert FitsFields(fs[1..][1..], slots[1..][1..]);
    assert FitsFields(fs[1..], slots[1..]);
    NullField(nul);
    TooLongField(octets, a);
    assert AnnouncedFields(fs[1..], slots[1..], 2) == Some(1);
    assert AnnouncedFields(fs, slots, 0) == Some(1);
    assert OutputFields(fs[1..][1..], slots[1..][1..]) == [];
    assert OutputFields(fs[1..], slots[1..]) == OutputField(fs[1], slots[1]) + [];
    assert OutputFields(fs, slots) == OutputField(fs[0], slots[0]) + OutputFields(fs[1..], slots[1..]);
    RecordOf(fs, slots);
  }

  lemma RecordOf(fs: seq<Field>, slots: seq<Slot>)
    requires FitsFields(fs, slots) && AnnouncedFields(fs, slots, 0) == Some(1)
    ensures Announced(Record(fs), Struct(slots)) == Some(3)
    ensures |Output(Record(fs), Struct(slots))| == 2 + |OutputFields(fs, slots)|
  {
    hide OutputFields, AnnouncedFields;
  }

  lemma NullField(nul: Type)
    requires nul.Leaf? && nul.codec == Primitive(5)
    ensures var f, slot := Plain(nul), Some(Atom([]));
            FitsField(f, slot) && |OutputField(f, slot)| == 2 && AnnouncedField(f, slot) == Some(2)
  {
    assert |EncPrimitive(5, [])| == 2;
  }

  lemma TooLongField(octets: Type, a: Contents)
    requires octets.Leaf? && octets.codec == Primitive(4)
    requires |a| == INT_MAX - 6 && IsContents(a)
    ensures var f, slot := ExpOpt(octets, 0), Some(Atom(a));
            FitsField(f, slot) && |OutputField(f, slot)| >= INT_MAX && AnnouncedField(f, slot) == Some(-1)
  {
    hide Base256, EncPrimitive, PutObject;
    LongLength(|a|);
    LongEncoding(a);
    LongLength(|EncPrimitive(4, a)|);
  }

  lemma LongEncoding(a: Contents)
    requires |a| == INT_MAX - 6 && IsContents(a)
    ensures |EncPrimitive(4, a)| == |a| + 2 + |Base256(|a|)|
  {
    hide Base256, PutObject;
  }
}
