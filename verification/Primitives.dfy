/** The contract the macros ask of a field codec can be kept: every primitive
    type of the tag, length, contents kind keeps it. */
module Primitives {
  import opened Octets
  import opened Header
  import opened Schema

  predicate IsContents(a: Contents) {
    |a| <= INT_MAX && forall i | 0 <= i < |a| :: 0 <= a[i] < 256
  }

  function EncPrimitive(typ: LowTag, a: Contents): bytes {
    if IsContents(a) then
      var contents: bytes := a;
      PutObject(false, |a|, typ, UNIVERSAL) + contents
    else []
  }

  function DecPrimitive(typ: LowTag, w: bytes): Option<(Contents, nat)> {
    var h := GetObject(w);
    if h.Bad? || h.constructed || h.cls != UNIVERSAL || h.tag != typ || h.len > INT_MAX then None
    else Some((w[h.size..h.size + h.len], h.size + h.len))
  }

  /** The codec of a universal type with primitive encoding. */
  function Primitive(typ: LowTag): FieldCodec {
    FieldCodec((b: byte) => b == typ, IsContents,
               (a: Contents) => EncPrimitive(typ, a), (w: bytes) => DecPrimitive(typ, w))
  }

  lemma PrimitiveRoundTrip(typ: LowTag, a: Contents)
    requires IsContents(a)
    ensures DecPrimitive(typ, EncPrimitive(typ, a)) == Some((a, |EncPrimitive(typ, a)|))
  {
    hide GetObject, PutObject;
    var h := PutObject(false, |a|, typ, UNIVERSAL);
    var contents: bytes := a;
    HeaderRoundTrip(false, |a|, typ, UNIVERSAL, contents);
    assert (h + contents)[|h|..|h| + |contents|] == contents;
  }

  lemma PrimitiveReadsOne(typ: LowTag, w: bytes)
    requires typ > 0
    ensures ReadsOne(Primitive(typ), w)
  {
    hide GetObject;
    var r := DecPrimitive(typ, w);
    if r.Some? {
      IdentifierNotZero(w);
      HeadAlone(w, r.value.1);
      var h := GetObject(w);
      assert w[..r.value.1][h.size..r.value.1] == w[h.size..r.value.1];
    }
  }

  lemma IdentifierNotZero(w: bytes)
    requires GetObject(w).Head? && GetObject(w).tag > 0
    ensures w[0] != 0
  {
    hide GetTag, GetLength;
  }

  lemma PrimitiveStopsThere(typ: LowTag, e: bytes, rest: bytes)
    ensures StopsThere(Primitive(typ), e, rest)
  {
    hide GetObject;
    var r := DecPrimitive(typ, e);
    if r.Some? {
      var w := e + rest;
      assert w[..|e|] == e;
      HeadOfPrefix(w, |e|);
      var h := GetObject(e);
      assert w[h.size..h.size + h.len] == e[h.size..h.size + h.len];
    }
  }

  /** The octets behind the header are the contents, one by one, when an object is
      written and when it is read. */
  lemma PrimitiveContents(typ: LowTag, a: Contents, w: bytes)
    ensures IsContents(a) ==>
              var h, e := PutObject(false, |a|, typ, UNIVERSAL), EncPrimitive(typ, a);
              |e| == |h| + |a| && e[..|h|] == h && forall i | 0 <= i < |a| :: e[|h| + i] == a[i]
    ensures var r, h := DecPrimitive(typ, w), GetObject(w);
            r.Some? ==>
              && h.Head? && !h.constructed && h.cls == UNIVERSAL && h.tag == typ
              && |r.value.0| == h.len && r.value.1 == h.size + h.len
              && forall i | 0 <= i < h.len :: r.value.0[i] == w[h.size + i]
  {
    hide GetObject, PutObject;
  }

  /** So the theorems about records hold for records of primitives. */
  lemma PrimitiveKeepsContract(typ: LowTag)
    requires typ > 0
    ensures KeepsContract(Primitive(typ))
  {
    hide GetObject, EncPrimitive, DecPrimitive, ReadsOne, StopsThere;
    var c := Primitive(typ);
    forall a ensures WritesBack(c, a) {
      if IsContents(a) {
        PrimitiveRoundTrip(typ, a);
        PrimitiveStarts(typ, a);
      }
    }
    forall w ensures ReadsOne(c, w) {
      PrimitiveReadsOne(typ, w);
    }
    forall e, rest ensures StopsThere(c, e, rest) {
      PrimitiveStopsThere(typ, e, rest);
    }
  }

  lemma PrimitiveStarts(typ: LowTag, a: Contents)
    requires IsContents(a)
    ensures EncPrimitive(typ, a) != [] && EncPrimitive(typ, a)[0] == typ
  {
    hide PutObject;
  }
}
