/** The I2D macros as code: a pass that adds up the length, and a pass that
    writes through a moving position into the caller's buffer. */
module Encoder {
  import opened Octets
  import opened Header
  import opened HeaderCode
  import opened Schema
  import opened Encode
  import opened Canonical
  import opened Passes

  /** The octets of an object that may be NULL, and the length announced for it. */
  function OutputSlot(t: Type, a: Slot): bytes
    requires FitsSlot(t, a)
  {
    if a.Some? then Output(t, a.value) else []
  }

  function AnnouncedSlot(t: Type, a: Slot): Option<int>
    requires FitsSlot(t, a)
  {
    if a.Some? then Announced(t, a.value) else Some(0)
  }

  /** The state of the put pass: from position `pos` on, `e` has been written
      over `before` and nothing else has changed; `p` is the moving position. */
  ghost predicate Wrote(before: bytes, pos: nat, e: bytes, after: bytes, p: nat) {
    p == pos + |e| && p <= |before| && after == Splice(before, pos, e)
  }

  lemma WroteMore(before: bytes, pos: nat, e: bytes, between: bytes, p: nat, more: bytes, after: bytes, p': nat)
    requires Wrote(before, pos, e, between, p) && Wrote(between, p, more, after, p')
    ensures Wrote(before, pos, e + more, after, p') && p' == pos + |e + more|
  {
    SpliceTwice(before, pos, e, more);
  }

  lemma WroteNothing(before: bytes, pos: nat)
    requires pos <= |before|
    ensures Wrote(before, pos, [], before, pos)
  {
  }

  /** An i2d function. With no buffer it returns the length it announces; with
      one it writes its octets at `pos` and moves past them. A NULL object takes
      no octets. All that is asked is that no int overflows. */
  method I2D(t: Type, a: Slot, out: array?<byte>, pos: nat) returns (r: CInt, p: nat)
    requires FitsSlot(t, a) && AnnouncedSlot(t, a).Some?
    requires out != null ==> pos + |OutputSlot(t, a)| <= out.Length
    modifies out
    ensures r == AnnouncedSlot(t, a).value
    ensures out != null ==> Wrote(old(out[..]), pos, OutputSlot(t, a), out[..], p)
    decreases t, 1
  {
    hide PutAny, PutObject, HeaderSize;
    r, p := 0, pos;
    if a.None? {
      return;
    }
    match t
    case Leaf(c) =>
      var e := c.enc(a.value.contents);
      r := |e|;
      if out != null {
        p := Copy(out, pos, e);
      }
    case Record(fs) =>
      var ret, vs := LenFields(fs, a.value.fields);
      r := ObjectSize(1, ret, SEQUENCE);
      SizeIsObjectSize(ret, SEQUENCE);
      if out != null {
        ghost var s := out[..];
        p := PutHeader(out, pos, 1, ret, SEQUENCE, UNIVERSAL);
        ghost var s', q := out[..], p;
        p := PutFields(fs, a.value.fields, vs, out, p);
        WroteMore(s, pos, PutAny(1, ret, SEQUENCE, UNIVERSAL), s', q, OutputFields(fs, a.value.fields), out[..], p);
      }
    case List(e, isSet, tag, cls) =>
      var ret := LenItems(e, a.value.items);
      r := ObjectSize(1, ret, tag);
      SizeIsObjectSize(ret, tag);
      if out != null {
        ghost var s := out[..];
        p := PutHeader(out, pos, 1, ret, tag, cls);
        ghost var s', q := out[..], p;
        p := PutItems(t, a.value.items, out, p);
        WroteMore(s, pos, PutAny(1, ret, tag, cls), s', q, OutputItems(t, a.value.items), out[..], p);
      }
  }

  lemma SizeIsObjectSize(ret: int, tag: Tag)
    ensures SizeOf(ret, tag)
         == if 0 <= ret && Overhead(1, ret, tag) + ret < INT_MAX then Overhead(1, ret, tag) + ret else -1
  {
    hide PutObject, HeaderSize;
  }

  method Copy(out: array<byte>, pos: nat, e: bytes) returns (p: nat)
    requires pos + |e| <= out.Length
    modifies out
    ensures Wrote(old(out[..]), pos, e, out[..], p)
  {
    var i := 0;
    while i < |e|
      invariant 0 <= i <= |e|
      invariant out[..] == Splice(old(out[..]), pos, e[..i])
    {
      out[pos + i] := e[i];
      i := i + 1;
    }
    assert e[..i] == e;
    p := pos + |e|;
  }

  // ----------------------------------------------------------------- records

  /** The len macros of a record: the length announced for its contents, and for
      each EXPLICIT field the length `v` that its put macro needs again. */
  method LenFields(fs: seq<Field>, slots: seq<Slot>) returns (ret: CInt, vs: seq<CInt>)
    requires FitsFields(fs, slots) && AnnouncedFields(fs, slots, 0).Some?
    ensures ret == AnnouncedFields(fs, slots, 0).value
    ensures KeptAll(fs, slots, vs)
    decreases fs, 0
  {
    hide FitsFields, AnnouncedFields, AnnouncedField, OutputFields, OutputField, Kept;
    ret, vs := 0, [];
    assert fs[0..] == fs && slots[0..] == slots;
    FieldsAt(fs, slots, 0, 0);
    for i := 0 to |fs|
      invariant |slots| == |fs| && FitsFields(fs[i..], slots[i..])
      invariant AnnouncedFields(fs[i..], slots[i..], ret) == AnnouncedFields(fs, slots, 0)
      invariant |vs| == i && forall k | 0 <= k < i :: Kept(fs[k], slots[k], vs[k])
    {
      FieldsAt(fs, slots, i, ret);
      var n, v := LenField(fs[i], slots[i]);
      ret := ret + n;
      vs := vs + [v];
    }
    FieldsAt(fs, slots, |fs|, ret);
  }

  /** The length an EXPLICIT field was given in the length pass is the one
      announced for its contents. */
  ghost predicate Kept(f: Field, slot: Slot, v: int) {
    && FitsField(f, slot)
    && (Written(f, slot) ==>
          Announced(f.t, slot.value).Some? && (f.ExpOpt? ==> v == Announced(f.t, slot.value).value))
  }

  ghost predicate KeptAll(fs: seq<Field>, slots: seq<Slot>, vs: seq<CInt>) {
    |fs| == |slots| == |vs| && forall k | 0 <= k < |fs| :: Kept(fs[k], slots[k], vs[k])
  }

  lemma FieldsAt(fs: seq<Field>, slots: seq<Slot>, i: nat, ret: int)
    requires |fs| == |slots| || FitsFields(fs, slots)
    requires i <= |fs| && i <= |slots| && FitsFields(fs[i..], slots[i..]) && IsInt(ret)
    ensures |fs| == |slots|
    ensures i == |fs| ==>
              OutputFields(fs[i..], slots[i..]) == [] && AnnouncedFields(fs[i..], slots[i..], ret) == Some(ret)
    ensures i < |fs| ==>
              && FitsField(fs[i], slots[i]) && FitsFields(fs[i + 1..], slots[i + 1..])
              && OutputFields(fs[i..], slots[i..])
                 == OutputField(fs[i], slots[i]) + OutputFields(fs[i + 1..], slots[i + 1..])
              && var n := AnnouncedField(fs[i], slots[i]);
                 AnnouncedFields(fs[i..], slots[i..], ret)
                 == if n.None? || !IsInt(ret + n.value) then None
                    else AnnouncedFields(fs[i + 1..], slots[i + 1..], ret + n.value)
  {
    hide FitsField, OutputField, AnnouncedField;
    if i < |fs| {
      assert fs[i..][1..] == fs[i + 1..] && slots[i..][1..] == slots[i + 1..];
    }
  }

  method LenField(f: Field, a: Slot) returns (n: CInt, v: CInt)
    requires FitsField(f, a) && AnnouncedField(f, a).Some?
    ensures n == AnnouncedField(f, a).value && Kept(f, a, v)
    decreases f, 1
  {
    hide Announced, Output, Fits, SizeOf, PutAny;
    n, v := 0, 0;
    var p;
    match f
    case Plain(t) =>
      n, p := I2D(t, a, null, 0);
    case Opt(t, _) =>
      n, p := I2D(t, a, null, 0);
    case ImpOpt(t, _, _) =>
      if a.Some? {
        n, p := I2D(t, a, null, 0);
      }
    case ExpOpt(t, mtag) =>
      if Written(f, a) {
        v, p := I2D(t, a, null, 0);
        n := ObjectSize(1, v, mtag);
        SizeIsObjectSize(v, mtag);
      }
    case ListOpt(t) =>
      if Written(f, a) {
        n, p := I2D(t, a, null, 0);
      }
  }

  method PutFields(fs: seq<Field>, slots: seq<Slot>, vs: seq<CInt>, out: array<byte>, pos: nat) returns (p: nat)
    requires FitsFields(fs, slots) && KeptAll(fs, slots, vs)
    requires pos + |OutputFields(fs, slots)| <= out.Length
    modifies out
    ensures Wrote(old(out[..]), pos, OutputFields(fs, slots), out[..], p)
    decreases fs, 0
  {
    hide FitsFields, OutputFields, OutputField, AnnouncedFields, AnnouncedField, Kept, Wrote;
    p := pos;
    ghost var done: bytes := [];
    assert fs[0..] == fs && slots[0..] == slots;
    WroteNothing(out[..], pos);
    for i := 0 to |fs|
      invariant FitsFields(fs[i..], slots[i..])
      invariant done + OutputFields(fs[i..], slots[i..]) == OutputFields(fs, slots)
      invariant Wrote(old(out[..]), pos, done, out[..], p) && p == pos + |done|
    {
      FieldsAt(fs, slots, i, 0);
      ghost var s, q, e, rest := out[..], p, OutputField(fs[i], slots[i]), OutputFields(fs[i + 1..], slots[i + 1..]);
      Assoc(done, e, rest);
      p := PutField(fs[i], slots[i], vs[i], out, p);
      WroteMore(old(out[..]), pos, done, s, q, e, out[..], p);
      done := done + e;
    }
    FieldsAt(fs, slots, |fs|, 0);
    assert done + [] == done;
  }

  method PutField(f: Field, a: Slot, v: CInt, out: array<byte>, pos: nat) returns (p: nat)
    requires FitsField(f, a) && Kept(f, a, v)
    requires pos + |OutputField(f, a)| <= out.Length
    modifies out
    ensures Wrote(old(out[..]), pos, OutputField(f, a), out[..], p)
    decreases f, 1
  {
    hide Announced, Output, Fits, PutAny;
    p := pos;
    var r;
    match f
    case Plain(t) =>
      r, p := I2D(t, a, out, p);
    case Opt(t, _) =>
      r, p := I2D(t, a, out, p);
    case ImpOpt(t, tag, _) =>
      if a.Some? {
        p := PutImplicit(t, tag, a.value, out, p);
      }
    case ExpOpt(t, mtag) =>
      if Written(f, a) {
        p := PutExplicit(t, mtag, a.value, v, out, p);
      }
    case ListOpt(t) =>
      if Written(f, a) {
        r, p := I2D(t, a, out, p);
      }
  }

  /** M_ASN1_I2D_put_IMP_opt: the identifier octet is rewritten after the inner
      i2d has written it. */
  method PutImplicit(t: Type, tag: LowTag, a: Value, out: array<byte>, pos: nat) returns (p: nat)
    requires Fits(t, a) && Announced(t, a).Some? && pos + |Output(t, a)| <= out.Length
    modifies out
    ensures Wrote(old(out[..]), pos, Retag(Output(t, a), tag), out[..], p)
    decreases t, 2
  {
    hide Output, Announced, Fits, ConstructedBit, WithoutConstructed;
    var q, r := pos, 0;
    r, p := I2D(t, Some(a), out, q);
    RetaggedOctet(out[q], tag);
    out[q] := CONTEXT_SPECIFIC + tag + ConstructedBit(out[q]);
  }

  /** M_ASN1_I2D_put_EXP_opt, with the length kept from the length pass. */
  method PutExplicit(t: Type, mtag: Tag, a: Value, v: CInt, out: array<byte>, pos: nat) returns (p: nat)
    requires Fits(t, a) && Announced(t, a).Some?
    requires pos + |PutAny(1, v, mtag, CONTEXT_SPECIFIC)| + |Output(t, a)| <= out.Length
    modifies out
    ensures Wrote(old(out[..]), pos, PutAny(1, v, mtag, CONTEXT_SPECIFIC) + Output(t, a), out[..], p)
    decreases t, 2
  {
    hide Output, Announced, Fits, PutAny;
    ghost var s := out[..];
    p := PutHeader(out, pos, 1, v, mtag, CONTEXT_SPECIFIC);
    ghost var s', q := out[..], p;
    var r;
    r, p := I2D(t, Some(a), out, p);
    WroteMore(s, pos, PutAny(1, v, mtag, CONTEXT_SPECIFIC), s', q, Output(t, a), out[..], p);
  }

  // ------------------------------------------------------------------- lists

  /** The contents of a list: the elements in order, for a SET OF ascending. */
  function OutputItems(t: Type, xs: seq<Value>): bytes
    requires t.List? && forall x <- xs :: Fits(t.elem, x)
  {
    Flatten(if t.isSet then SortOctets(OutputEach(t.elem, xs)) else OutputEach(t.elem, xs))
  }

  method LenItems(e: Type, xs: seq<Value>) returns (ret: CInt)
    requires (forall x <- xs :: Fits(e, x)) && AnnouncedItems(e, xs, 0).Some?
    ensures ret == AnnouncedItems(e, xs, 0).value
    decreases e, 2
  {
    hide Announced, AnnouncedItems, Output, Fits;
    ret := 0;
    assert xs[0..] == xs;
    for i := 0 to |xs|
      invariant AnnouncedItems(e, xs[i..], ret) == AnnouncedItems(e, xs, 0)
    {
      AnnouncedAt(e, xs, i, ret);
      var n, p := I2D(e, Some(xs[i]), null, 0);
      ret := ret + n;
    }
    NoItems(e, xs[|xs|..], ret);
  }

  lemma NoItems(e: Type, xs: seq<Value>, ret: int)
    requires xs == [] && IsInt(ret)
    ensures AnnouncedItems(e, xs, ret) == Some(ret) && Flatten(OutputEach(e, xs)) == []
  {
  }

  lemma AnnouncedAt(e: Type, xs: seq<Value>, i: nat, ret: int)
    requires i < |xs| && (forall x <- xs :: Fits(e, x)) && IsInt(ret)
    ensures Fits(e, xs[i])
    ensures var n := Announced(e, xs[i]);
            AnnouncedItems(e, xs[i..], ret)
            == if n.None? || !IsInt(ret + n.value) then None else AnnouncedItems(e, xs[i + 1..], ret + n.value)
  {
    hide Announced, Fits;
    assert xs[i] in xs;
    assert xs[i..][1..] == xs[i + 1..];
  }

  lemma OutputAt(e: Type, xs: seq<Value>, i: nat)
    requires i < |xs| && forall x <- xs :: Fits(e, x)
    ensures Fits(e, xs[i])
    ensures Flatten(OutputEach(e, xs[i..])) == Output(e, xs[i]) + Flatten(OutputEach(e, xs[i + 1..]))
    ensures OutputEach(e, xs[..i + 1]) == OutputEach(e, xs[..i]) + [Output(e, xs[i])]
  {
    hide Output, Fits;
    assert xs[i] in xs;
    assert xs[i..][1..] == xs[i + 1..];
    assert OutputEach(e, xs[i..])[1..] == OutputEach(e, xs[i + 1..]);
  }

  /** When the sum over a list is announced, so is the length of each element. */
  lemma {:induction false} EachAnnounced(e: Type, xs: seq<Value>, ret: int)
    requires (forall x <- xs :: Fits(e, x)) && IsInt(ret) && AnnouncedItems(e, xs, ret).Some?
    ensures forall x <- xs :: Announced(e, x).Some?
  {
    hide Announced, Fits;
    if xs != [] {
      EachAnnounced(e, xs[1..], ret + Announced(e, xs[0]).value);
      assert xs == [xs[0]] + xs[1..];
    }
  }

  /** The elements are written in order; those of a SET OF are then arranged
      anew, with der_cmp as the order. */
  method PutItems(t: Type, xs: seq<Value>, out: array<byte>, pos: nat) returns (p: nat)
    requires t.List? && (forall x <- xs :: Fits(t.elem, x)) && AnnouncedItems(t.elem, xs, 0).Some?
    requires pos + |OutputItems(t, xs)| <= out.Length
    modifies out
    ensures Wrote(old(out[..]), pos, OutputItems(t, xs), out[..], p)
    decreases t, 0
  {
    hide Output, OutputEach, Announced, AnnouncedItems, Fits, Flatten, SortOctets, Wrote;
    ghost var s := out[..];
    EachAnnounced(t.elem, xs, 0);
    SortKeepsSize(OutputEach(t.elem, xs));
    var es;
    p, es := PutEach(t.elem, xs, out, pos);
    if t.isSet {
      ghost var s', q := out[..], p;
      p := Copy(out, pos, Flatten(SortOctets(es)));
      WroteOver(s, pos, Flatten(es), s', q, Flatten(SortOctets(es)), out[..], p);
    }
  }

  lemma WroteOver(s: bytes, pos: nat, e1: bytes, s1: bytes, p1: nat, e2: bytes, s2: bytes, p2: nat)
    requires Wrote(s, pos, e1, s1, p1) && Wrote(s1, pos, e2, s2, p2) && |e1| == |e2|
    ensures Wrote(s, pos, e2, s2, p2)
  {
  }

  /** The put macro of each element in turn, and the pieces it wrote. */
  method PutEach(e: Type, xs: seq<Value>, out: array<byte>, pos: nat) returns (p: nat, es: seq<bytes>)
    requires (forall x <- xs :: Fits(e, x)) && forall x <- xs :: Announced(e, x).Some?
    requires pos + |Flatten(OutputEach(e, xs))| <= out.Length
    modifies out
    ensures Wrote(old(out[..]), pos, Flatten(OutputEach(e, xs)), out[..], p)
    ensures es == OutputEach(e, xs)
    decreases e, 2
  {
    hide Output, Announced, Fits, OutputEach, Flatten, Wrote;
    p, es := pos, [];
    ghost var done: bytes := [];
    assert xs[0..] == xs && xs[..0] == [] && xs[..|xs|] == xs;
    WroteNothing(out[..], pos);
    NoneOutput(e, xs[..0]);
    for i := 0 to |xs|
      invariant done + Flatten(OutputEach(e, xs[i..])) == Flatten(OutputEach(e, xs))
      invariant Wrote(old(out[..]), pos, done, out[..], p) && p == pos + |done|
      invariant es == OutputEach(e, xs[..i])
    {
      OutputAt(e, xs, i);
      assert xs[i] in xs;
      var q := p;
      ghost var s, x, rest := out[..], Output(e, xs[i]), Flatten(OutputEach(e, xs[i + 1..]));
      Assoc(done, x, rest);
      var r;
      r, p := I2D(e, Some(xs[i]), out, q);
      WroteMore(old(out[..]), pos, done, s, q, x, out[..], p);
      WrotePiece(s, q, x, out[..], p);
      es := es + [out[q..p]];
      done := done + x;
    }
    NoItems(e, xs[|xs|..], 0);
    assert done + [] == done;
  }

  lemma NoneOutput(e: Type, xs: seq<Value>)
    requires xs == []
    ensures OutputEach(e, xs) == []
  {
  }

  lemma WrotePiece(s: bytes, q: nat, x: bytes, s': bytes, p: nat)
    requires Wrote(s, q, x, s', p)
    ensures q <= p <= |s'| && s'[q..p] == x
  {
  }
}
