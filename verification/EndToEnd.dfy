/** The two halves together, over one buffer. */
module EndToEnd {
  import opened Octets
  import opened Header
  import opened HeaderCode
  import opened Schema
  import opened Encode
  import opened Decode
  import opened Canonical
  import opened Passes
  import opened Theorems
  import opened Straying
  import opened Encoder
  import opened Objects
  import opened Decoder

  /** A window that starts where an i2d function wrote, and reaches at least as
      far as it wrote, reads back as the canonical object; nothing outside it is
      looked at. */
  lemma WrittenIsRead(t: Type, v: Value, before: bytes, pos: nat, after: bytes, p: nat, length: nat)
    requires WellTagged(t) && Fits(t, v) && Complete(t, v) && |Enc(t, v)| < INT_MAX
    requires Wrote(before, pos, Enc(t, v), after, p)
    requires p <= pos + length <= |after|
    ensures p == pos + |Enc(t, v)|
    ensures Dec(t, None, Window(after, pos, length)) == Done(Canon(t, v), p - pos)
    ensures !Strays(t, Window(after, pos, length))
  {
    hide Enc, Dec, Canon, Fits, Complete, WellTagged, Wrote, Window, Strays;
    WroteWindow(before, pos, Enc(t, v), after, p, length);
    ExactRoundTrip(t, v, after[p..pos + length]);
    WrittenStaysInside(t, v, after[p..pos + length]);
  }

  lemma WroteWindow(before: bytes, pos: nat, e: bytes, after: bytes, p: nat, length: nat)
    requires Wrote(before, pos, e, after, p) && p <= pos + length <= |after|
    ensures p == pos + |e| && Window(after, pos, length) == e + after[p..pos + length]
  {
    assert after[pos..p] == e;
    if length == 0 {
      assert e == [];
    } else {
      assert after[pos..pos + length] == after[pos..p] + after[p..pos + length];
    }
  }

  /** ASN1_dup: the length pass sizes a buffer, the put pass fills it, and the
      object is read back from it. The copy is the canonical object. */
  method Duplicate(t: Type, x: Slot, heap: Heap) returns (ret: Slot)
    requires WellTagged(t) && CompleteSlot(t, x) && (x.Some? ==> |Enc(t, x.value)| < INT_MAX - 10)
    modifies heap
    ensures ret == if x.Some? then Some(Canon(t, x.value)) else None
    ensures heap.live == old(heap.live) + NodesOfSlot(ret) && heap.strayed == old(heap.strayed)
  {
    hide Enc, Output, Announced, Dec, Canon, Complete, WellTagged, Splice, Window, Nodes, Strays;
    if x.None? {
      return None;
    }
    PassesAgree(t, x.value);
    var p, i, q, ok;
    i, p := I2D(t, x, null, 0);
    var b := new byte[i + 10];
    ghost var before := b[..];
    i, p := I2D(t, x, b, 0);
    WrittenIsRead(t, x.value, before, 0, b[..], p, i);
    ok, ret, q := D2I(t, None, b, 0, i, heap);
  }
}
