/** What the I2D macros write, as a function of the object. */
module Encode {
  import opened Octets
  import opened Header
  import opened Schema

  // ------------------------------------------------ the order of a SET OF

  /** der_cmp: compare octet by octet, a proper prefix comes first. */
  predicate Before(a: bytes, b: bytes) {
    a == [] || (b != [] && (a[0] < b[0] || (a[0] == b[0] && Before(a[1..], b[1..]))))
  }

  function Insert(x: bytes, ys: seq<bytes>): seq<bytes> {
    if ys == [] || Before(x, ys[0]) then [x] + ys else [ys[0]] + Insert(x, ys[1..])
  }

  function SortOctets(es: seq<bytes>): seq<bytes> {
    if es == [] then [] else Insert(es[0], SortOctets(es[1..]))
  }

  function Flatten(es: seq<bytes>): bytes {
    if es == [] then [] else es[0] + Flatten(es[1..])
  }

  // ---------------------------------------------------------------- encoding

  /** The guards around the len and put macros: a NULL pointer, and for the
      optional list macros an empty list, writes nothing. */
  predicate Written(f: Field, slot: Slot) {
    slot.Some? && ((f.ExpOpt? || f.ListOpt?) && slot.value.Items? ==> slot.value.items != [])
  }

  /** M_ASN1_I2D_put_IMP_opt: class and number replaced, constructed bit kept. */
  function Retag(e: bytes, tag: LowTag): (r: bytes)
    requires e != []
    ensures |r| == |e| && r[1..] == e[1..]
    ensures WithoutConstructed(r[0]) == CONTEXT_SPECIFIC + tag && ConstructedBit(r[0]) == ConstructedBit(e[0])
  {
    RetaggedOctet(e[0], tag);
    e[0 := CONTEXT_SPECIFIC + tag + ConstructedBit(e[0])]
  }

  lemma RetaggedOctet(b: byte, tag: LowTag)
    ensures var c := ConstructedBit(b);
            && CONTEXT_SPECIFIC + tag + c < 256
            && ConstructedBit(CONTEXT_SPECIFIC + tag + c) == c
            && WithoutConstructed(CONTEXT_SPECIFIC + tag + c) == CONTEXT_SPECIFIC + tag
  {
    assert ConstructedBit(b) == 0 || ConstructedBit(b) == 32;
  }

  function Enc(t: Type, v: Value): (r: bytes)
    requires Fits(t, v)
    ensures r != [] && Starts(t, r[0])
    decreases t, 1
  {
    match t
    case Leaf(c) =>
      assert WritesBack(c, v.contents);
      c.enc(v.contents)
    case Record(fs) =>
      var body := EncFields(fs, v.fields);
      PutObject(true, |body|, SEQUENCE, UNIVERSAL) + body
    case List(e, isSet, tag, cls) =>
      var es := EncEach(e, v.items);
      var body := Flatten(if isSet then SortOctets(es) else es);
      PutObject(true, |body|, tag, cls) + body
  }

  function EncEach(e: Type, xs: seq<Value>): (r: seq<bytes>)
    requires forall x <- xs :: Fits(e, x)
    ensures |r| == |xs| && forall i | 0 <= i < |xs| :: r[i] == Enc(e, xs[i])
    decreases e, 2, |xs|
  {
    if xs == [] then [] else [Enc(e, xs[0])] + EncEach(e, xs[1..])
  }

  function EncFields(fs: seq<Field>, slots: seq<Slot>): bytes
    requires FitsFields(fs, slots)
    decreases fs, 0
  {
    if fs == [] then [] else EncField(fs[0], slots[0]) + EncFields(fs[1..], slots[1..])
  }

  function EncField(f: Field, slot: Slot): bytes
    requires FitsField(f, slot)
    decreases f, 1
  {
    if !Written(f, slot) then []
    else
      var e := Enc(f.t, slot.value);
      match f
      case Plain(_) => e
      case Opt(_, _) => e
      case ImpOpt(_, tag, _) => Retag(e, tag)
      case ExpOpt(_, mtag) => PutObject(true, |e|, mtag, CONTEXT_SPECIFIC) + e
      case ListOpt(_) => e
  }

  // --------------------------------------------------------- canonical form

  function InsertValue(e: Type, x: Value, ys: seq<Value>): (r: seq<Value>)
    requires Fits(e, x) && forall y <- ys :: Fits(e, y)
    ensures multiset(r) == multiset([x] + ys)
    ensures forall y <- r :: Fits(e, y)
  {
    if ys == [] || Before(Enc(e, x), Enc(e, ys[0])) then [x] + ys
    else
      var r := [ys[0]] + InsertValue(e, x, ys[1..]);
      assert ys == [ys[0]] + ys[1..];
      assert forall y <- r :: y in multiset(r);
      r
  }

  /** The objects of a SET OF in the order their encodings are written. */
  function SortValues(e: Type, xs: seq<Value>): (r: seq<Value>)
    requires forall x <- xs :: Fits(e, x)
    ensures multiset(r) == multiset(xs)
    ensures forall x <- r :: Fits(e, x)
  {
    if xs == [] then []
    else
      assert xs == [xs[0]] + xs[1..];
      InsertValue(e, xs[0], SortValues(e, xs[1..]))
  }

  /** The object a reader gets back: an empty optional list is NULL and a
      SET OF is in the order of its encodings. */
  function Canon(t: Type, v: Value): (r: Value)
    requires Fits(t, v)
    ensures Fits(t, r)
    decreases t, 1
  {
    match t
    case Leaf(_) => v
    case Record(fs) => Struct(CanonFields(fs, v.fields))
    case List(e, isSet, _, _) =>
      var xs := CanonEach(e, v.items);
      Items(if isSet then SortValues(e, xs) else xs)
  }

  function CanonEach(e: Type, xs: seq<Value>): (r: seq<Value>)
    requires forall x <- xs :: Fits(e, x)
    ensures |r| == |xs| && (forall x <- r :: Fits(e, x))
    ensures forall i | 0 <= i < |xs| :: r[i] == Canon(e, xs[i])
    decreases e, 2, |xs|
  {
    if xs == [] then [] else [Canon(e, xs[0])] + CanonEach(e, xs[1..])
  }

  function CanonFields(fs: seq<Field>, slots: seq<Slot>): (r: seq<Slot>)
    requires FitsFields(fs, slots)
    ensures FitsFields(fs, r)
    decreases fs, 0
  {
    if fs == [] then [] else
      var head, tail := CanonField(fs[0], slots[0]), CanonFields(fs[1..], slots[1..]);
      assert ([head] + tail)[1..] == tail;
      [head] + tail
  }

  function CanonField(f: Field, slot: Slot): (r: Slot)
    requires FitsField(f, slot)
    ensures FitsField(f, r)
    decreases f, 1
  {
    if Written(f, slot) then Some(Canon(f.t, slot.value)) else None
  }
}
