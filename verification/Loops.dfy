/** Functions written with the macros for a loop over a sequence of elements: a
    writer that opens with an indefinite length and closes behind the last
    element, and a reader that asks after each element for the end. */
module Loops {
  import opened Octets
  import opened Header
  import opened HeaderCode
  import opened Schema
  import opened Encode
  import opened Decode
  import opened Grammar
  import opened RoundTrip
  import opened Canonical
  import opened Passes
  import opened Theorems
  import opened Straying
  import opened Encoder
  import opened Objects
  import opened Decoder

  // ---------------------------------------------------------------- writing

  /** M_ASN1_I2D_INF_seq_start, a put macro for each element, and
      M_ASN1_I2D_INF_seq_end. */
  method PutSequence(e: Type, xs: seq<Value>, tag: LowTag, ctx: Class, out: array<byte>, pos: nat) returns (p: nat)
    requires (forall x <- xs :: Fits(e, x)) && |Flatten(EncEach(e, xs))| < INT_MAX
    requires pos + |Wrap(tag, ctx, Flatten(EncEach(e, xs)), Indefinite)| <= out.Length
    modifies out
    ensures Wrote(old(out[..]), pos, Wrap(tag, ctx, Flatten(EncEach(e, xs)), Indefinite), out[..], p)
  {
    hide Fits, EncEach, OutputEach, Announced, AnnouncedItems, Flatten, Splice, IdOctets;
    ghost var s, body := out[..], Flatten(EncEach(e, xs));
    assert PutIndefinite(tag, ctx) == HeaderIn(Indefinite, |body|, tag, ctx);
    p := PutInfiniteStart(out, pos, tag, ctx);
    ghost var s1, p1 := out[..], p;
    ItemsAgree(e, xs, 0);
    EachAnnounced(e, xs, 0);
    var es;
    p, es := PutEach(e, xs, out, p);
    ghost var s2, p2 := out[..], p;
    WroteMore(s, pos, PutIndefinite(tag, ctx), s1, p1, body, s2, p2);
    p := PutInfiniteEnd(out, p);
    WroteMore(s, pos, PutIndefinite(tag, ctx) + body, s2, p2, END_OF_CONTENTS, out[..], p);
  }

  /** What it writes is read as a SEQUENCE OF with its tag and class: the
      canonical form of each element in turn, up to the end it wrote. */
  lemma LoopIsRead(e: Type, xs: seq<Value>, tag: LowTag, ctx: Class, slot: Slot, rest: bytes)
    requires WellTagged(e) && (forall x <- xs :: Fits(e, x)) && (forall x <- xs :: Complete(e, x))
    requires |Flatten(EncEach(e, xs))| < INT_MAX
    ensures var w := Wrap(tag, ctx, Flatten(EncEach(e, xs)), Indefinite);
            Dec(List(e, false, tag, ctx), slot, w + rest) == Done(Items(CanonEach(e, xs)), |w|)
  {
    hide WellTagged, Complete, Dec, Wrap, EncEach, Flatten;
    var t, body := List(e, false, tag, ctx), Flatten(EncEach(e, xs));
    var w := Wrap(tag, ctx, body, Indefinite);
    CanonEachComplete(e, xs);
    CanonEachCorrect(e, xs);
    EncItemsAreBer(e, CanonEach(e, xs), []);
    EveryItemWithin(e, CanonEach(e, xs), DEFINITE, [], ROOM);
    BerItemsAreBer(e, CanonEach(e, xs), DEFINITE, [], ROOM);
    WrappedItems(t, Items(CanonEach(e, xs)), body, w);
    ObjectRoundTrip(t, slot, Items(CanonEach(e, xs)), w, rest);
  }

  lemma CanonEachComplete(e: Type, xs: seq<Value>)
    requires (forall x <- xs :: Fits(e, x)) && (forall x <- xs :: Complete(e, x))
    ensures forall y <- CanonEach(e, xs) :: Complete(e, y)
  {
    hide Fits, Complete, Canon;
    var ys := CanonEach(e, xs);
    forall i | 0 <= i < |ys| ensures Complete(e, ys[i]) {
      CanonComplete(e, xs[i]);
    }
  }

  lemma WrappedItems(t: Type, v: Value, body: bytes, w: bytes)
    requires t.List? && v.Items? && WellTagged(t.elem) && t.tag < 31
    requires AreBerItems(t.elem, v.items, body, ROOM) && w == Wrap(t.tag, t.cls, body, Indefinite) && |body| < INT_MAX
    ensures WellTagged(t) && IsBer(t, v, w, ROOM) && |w| <= LONG_MAX
  {
    assert IsWrapped(w, t.tag, t.cls, body, ROOM);
  }

  // ---------------------------------------------------------------- reading

  /** Tag 0 of the universal class is kept for the end-of-contents (section
      8.1.5 of X.690). */
  predicate IsNotReserved(e: Type) {
    e.List? && e.cls == UNIVERSAL ==> e.tag != 0
  }

  /** vars, Init, start_sequence, and a get macro for one element until
      end_sequence; then Finish. This is the reader of a SEQUENCE OF, but for
      its demand that the header be that of a constructed encoding. */
  method GetSequenceOf(e: Type, buf: array<byte>, pp: nat, length: int, heap: Heap)
    returns (ok: bool, xs: seq<Value>, pp': nat)
    requires pp <= buf.Length && pp + length <= buf.Length && IsNotReserved(e)
    modifies buf, heap
    ensures buf[..] == old(buf[..])
    ensures var w := Window(old(buf[..]), pp, length);
            var r := Dec(List(e, false, SEQUENCE, UNIVERSAL), None, w);
            && ok == (r.Done? && GetObject(w).constructed)
            && pp' == pp + (if ok then r.n else 0) && (ok ==> r.v == Items(xs))
    ensures heap.live == old(heap.live) + if ok then NodesOfItems(xs) else 0
    ensures var w := Window(old(buf[..]), pp, length);
            var h := GetObject(w);
            var straying := h.Head? && h.constructed && Strays(List(e, false, SEQUENCE, UNIVERSAL), w);
            heap.strayed == (old(heap.strayed) || length < 0 || straying)
  {
    hide DecItems, GetObject, Content, NodesOfItems, Nodes, Window, StraysInItems;
    xs, pp' := [], pp;
    if length < 0 {
      heap.strayed := true;
    }
    NoNodes();
    var c := new ConstCtx(buf, pp, heap);
    ok := c.GetSequence(length);
    if ok {
      ok, xs := GetElements(c, e);
    }
    if ok {
      pp' := c.p;
    }
  }

  /** The loop and the end check. */
  method GetElements(c: ConstCtx, e: Type) returns (ok: bool, xs: seq<Value>)
    requires c.Valid() && !c.eos && IsNotReserved(e) && (c.inf == CONSTRUCTED + 1) == (c.inf % 2 == 1)
    modifies c, c.buf, c.heap
    ensures c.buf[..] == old(c.buf[..])
    ensures var r := DecItems(e, old(c.inf) == CONSTRUCTED + 1, old(c.Rest()));
            ok == r.ElementsRead? && (ok ==> xs == r.items && c.p == old(c.p) + r.n)
    ensures c.heap.live == old(c.heap.live) + if ok then NodesOfItems(xs) else 0
    ensures c.heap.strayed == (old(c.heap.strayed) || StraysInItems(e, old(c.Rest())))
  {
    hide DecItems, Dec, Nodes, NodesOfItems, Window, AtEndOfContents, Strays, IsNotReserved, AfterItems;
    hide StraysInItems, GetObject;
    ghost var w, p0, indefinite, slen0 := c.Rest(), c.p, c.inf == CONSTRUCTED + 1, c.slen;
    xs := [];
    NoNodes();
    assert w[0..] == w;
    NoneBefore(DecItems(e, indefinite, w));
    while true
      invariant c.Valid() && c.buf[..] == old(c.buf[..]) && c.inf == old(c.inf) && !c.eos
      invariant p0 <= c.p && c.p + c.slen == p0 + slen0 && c.Rest() == w[c.p - p0..]
      invariant DecItems(e, indefinite, w) == AfterItems(xs, c.p - p0, DecItems(e, indefinite, w[c.p - p0..]))
      invariant c.heap.live == old(c.heap.live) + NodesOfItems(xs)
      invariant (c.heap.strayed || StraysInItems(e, w[c.p - p0..])) == (old(c.heap.strayed) || StraysInItems(e, w))
      decreases c.slen
    {
      ghost var n := c.p - p0;
      NextOrEnd(e, indefinite, xs, w, n);
      StraysNextOrEnd(e, indefinite, w, n);
      var end, x;
      end, ok, x := GetNext(c, e);
      if end {
        ok := c.Finished();
        return;
      }
      if !ok {
        c.heap.Free(NodesOfItems(xs));
        return;
      }
      LaterDrop(w, n, c.p - p0 - n);
      NodesAppend(xs, x.value);
      xs := xs + [x.value];
    }
  }

  /** The test of the loop, and the get macro when there is more. */
  method GetNext(c: ConstCtx, e: Type) returns (end: bool, ok: bool, x: Slot)
    requires c.Valid() && !c.eos && (c.inf == CONSTRUCTED + 1) == (c.inf % 2 == 1)
    modifies c, c.buf, c.heap
    ensures c.buf[..] == old(c.buf[..]) && c.inf == old(c.inf)
    ensures var indefinite, r := old(c.inf) == CONSTRUCTED + 1, Dec(e, None, old(c.Rest()));
            && end == IsEnd(indefinite, old(c.Rest()))
            && (end ==> c.eos == indefinite && c.slen == old(c.slen) && c.p == old(c.p) + Closing(indefinite)
                        && c.heap.live == old(c.heap.live))
            && c.heap.strayed == (old(c.heap.strayed) || (!end && Strays(e, old(c.Rest()))))
            && (!end ==> ok == r.Done? && x == (if ok then Some(r.v) else None))
            && (!end && ok ==> c.Valid() && !c.eos && c.p == old(c.p) + r.n && c.slen == old(c.slen) - r.n
                               && c.Rest() == old(c.Rest())[r.n..])
            && (!end ==> c.heap.live == old(c.heap.live) + NodesOfSlot(x))
  {
    hide Dec, Window, Strays, Nodes, Fits;
    ok, x := true, None;
    ghost var p0, slen0 := c.p, c.slen;
    NullStaysNull(e, c.Rest());
    NoRest(c.buf[..], c.p, c.slen);
    end := c.EndSequence();
    if !end {
      ok, x := c.Get(e, None);
      if ok {
        LaterWindow(c.buf[..], p0, slen0, c.p - p0);
      }
    }
  }

  lemma NoRest(s: bytes, p: nat, length: nat)
    requires p + length <= |s|
    ensures Window(s, p, length) == [] <==> length == 0
  {
  }

  lemma NoneBefore(r: Elements)
    ensures AfterItems([], 0, r) == r
  {
  }

  /** One turn of the loop, seen from the list reader. */
  lemma NextOrEnd(e: Type, indefinite: bool, done: seq<Value>, w: bytes, n: nat)
    requires n <= |w| && IsNotReserved(e)
    ensures AfterItems(done, n, DecItems(e, indefinite, w[n..]))
            == if IsEnd(indefinite, w[n..]) then ElementsRead(done, n + Closing(indefinite))
               else var r := Dec(e, None, w[n..]);
                    if r.Done? then AfterItems(done + [r.v], n + r.n, DecItems(e, indefinite, w[n + r.n..]))
                    else ElementsStop
  {
    hide Dec, DecItems, AfterItems;
    NextElement(e, indefinite, done, w, n);
    ZeroIsNoElement(e, w[n..]);
    NoOctets(e, None);
  }

  lemma StraysNextOrEnd(e: Type, indefinite: bool, w: bytes, n: nat)
    requires n <= |w| && IsNotReserved(e)
    ensures StraysInItems(e, w[n..])
            == (!IsEnd(indefinite, w[n..])
                && (Strays(e, w[n..])
                    || var r := Dec(e, None, w[n..]); r.Done? && StraysInItems(e, w[n + r.n..])))
  {
    hide Dec, StraysInItems, AtEndOfContents;
    NextStrayItem(e, w, n);
    ZeroIsNoElement(e, w[n..]);
    NoOctets(e, None);
    if AtEndOfContents(w[n..]) {
      ZeroHead(w[n..]);
    }
  }

  lemma NullStaysNull(e: Type, w: bytes)
    ensures Dec(e, None, w).Fail? ==> Dec(e, None, w).slot == None
  {
    DecFits(e, None, w);
  }

  /** An end-of-contents is not an element. */
  lemma ZeroIsNoElement(e: Type, w: bytes)
    requires IsNotReserved(e)
    ensures AtEndOfContents(w) ==> Dec(e, None, w).Fail?
    ensures w == [] ==> Dec(e, None, w).Fail?
  {
    NoOctets(e, None);
    if AtEndOfContents(w) {
      if e.Leaf? {
        assert ReadsOne(e.codec, w);
      }
      ZeroHead(w);
    }
  }

  lemma ZeroHead(w: bytes)
    requires AtEndOfContents(w)
    ensures GetObject(w) == Head(2, false, false, UNIVERSAL, 0, 0)
  {
  }
}
