/** Where an encoding ends for the macros. They find the end of an indefinite one
    by reading what is in it, so a definite EXPLICIT wrapper that is not filled
    moves it. */
module Ends {
  import opened Octets
  import opened Header
  import opened Schema
  import opened Decode
  import opened Grammar
  import opened RoundTrip
  import opened Theorems
  import opened Accepted
  import opened Primitives

  // --------------------------------------------- a walk over the octets

  /** How far reading a `t` from the window goes, by headers and guards alone: to
      the announced end, or over the fields or elements in turn to the
      end-of-contents behind them. No object is built and no contents are
      looked at. */
  function Reach(t: Type, w: bytes): (n: Option<nat>)
    ensures n.Some? ==> n.value <= |w|
    decreases t, 1
  {
    var h := GetObject(w);
    if h.Bad? then None
    else if t.Leaf? then Extent(w)
    else if !h.indefinite then Some(h.size + h.len)
    else
      var rest := w[h.size..];
      match t
      case Record(fs) => Later(h.size, Closed(rest, FieldsReach(fs, rest)))
      case List(e, _, _, _) => Later(h.size, ItemsReach(e, rest))
  }

  /** The end-of-contents `n` octets on. */
  function Closed(w: bytes, n: Option<nat>): (end: Option<nat>)
    requires n.Some? ==> n.value <= |w|
    ensures end.Some? ==> end.value <= |w|
  {
    if n.Some? && AtEndOfContents(w[n.value..]) then Some(n.value + 2) else None
  }

  function ItemsReach(e: Type, rest: bytes): (n: Option<nat>)
    ensures n.Some? ==> n.value <= |rest|
    decreases e, 2, |rest|
  {
    if AtEndOfContents(rest) then Some(2)
    else
      var k := Reach(e, rest);
      if k.None? || k.value == 0 then None else Later(k.value, ItemsReach(e, rest[k.value..]))
  }

  function FieldsReach(fs: seq<Field>, rest: bytes): (n: Option<nat>)
    ensures n.Some? ==> n.value <= |rest|
    decreases fs, 0
  {
    if fs == [] then Some(0)
    else
      var k := FieldReach(fs[0], rest);
      if k.None? then None else Later(k.value, FieldsReach(fs[1..], rest[k.value..]))
  }

  function FieldReach(f: Field, rest: bytes): (n: Option<nat>)
    ensures n.Some? ==> n.value <= |rest|
    decreases f, 1
  {
    if !Enters(f, rest) then Some(0)
    else
      var n := Reach(f.t, Seen(f, rest));
      var h := GetObject(rest);
      if !f.ExpOpt? then n
      else if h.Bad? || n.None? then None
      else if !h.indefinite then Some(h.size + n.value)
      else Later(h.size, Closed(rest[h.size..], n))
  }

  /** What is accepted is taken as far as the walk goes. */
  lemma {:induction false} TakesReach(t: Type, slot: Slot, w: bytes)
    requires Dec(t, slot, w).Done?
    ensures Reach(t, w) == Some(Dec(t, slot, w).n)
    decreases t, 1
  {
    hide GetObject, DecFields, DecItems, Target, FieldsReach, ItemsReach, AtEndOfContents;
    TakesAnnounced(t, slot, w);
    var h := GetObject(w);
    match t
    case Leaf(_) => LeafExtent(t, slot, w);
    case Record(fs) => FieldsTakeReach(fs, Target(fs, slot), Content(h, w));
    case List(e, _, _, _) =>
      if h.indefinite {
        ItemsTakeReach(e, Content(h, w));
      }
  }

  lemma {:induction false} ItemsTakeReach(e: Type, rest: bytes)
    requires DecItems(e, true, rest).ElementsRead?
    ensures ItemsReach(e, rest) == Some(DecItems(e, true, rest).n)
    decreases e, 2, |rest|
  {
    hide Dec, DecItems, Reach;
    AcceptedItem(e, true, rest);
    if !AtEndOfContents(rest) {
      TakesReach(e, None, rest);
      ItemsTakeReach(e, rest[Dec(e, None, rest).n..]);
    }
  }

  lemma {:induction false} FieldsTakeReach(fs: seq<Field>, slots: seq<Slot>, rest: bytes)
    requires |fs| == |slots| && DecFields(fs, slots, rest).FieldsRead?
    ensures FieldsReach(fs, rest) == Some(DecFields(fs, slots, rest).n)
    decreases fs, 0
  {
    hide DecField, FieldReach;
    if fs != [] {
      FieldTakesReach(fs[0], slots[0], rest);
      FieldsTakeReach(fs[1..], slots[1..], rest[DecField(fs[0], slots[0], rest).n..]);
    }
  }

  lemma {:induction false} FieldTakesReach(f: Field, slot: Slot, rest: bytes)
    requires DecField(f, slot, rest).Went?
    ensures FieldReach(f, rest) == Some(DecField(f, slot, rest).n)
    decreases f, 1
  {
    hide GetObject, Dec, Inside, Untag, Reach, AtEndOfContents;
    if Enters(f, rest) {
      EnterStep(f, slot, rest);
      TakesReach(f.t, slot, Seen(f, rest));
      var h := GetObject(rest);
      if f.ExpOpt? {
        DropTwice(rest, h.size, Dec(f.t, slot, Seen(f, rest)).n);
      }
    }
  }

  // ------------------------------------------------------- the EXPLICIT step

  /** Where an EXPLICIT field ends. An indefinite wrapper must be closed right
      behind what the inner d2i took. A definite one need not be filled: the
      field ends where the wrapper ends exactly when the walk over what is inside
      goes to the end of it, and otherwise the next field starts inside the
      wrapper. When the inner header is definite it tells; when there is no fault
      inside, so does the extent of the encoding there. */
  lemma ExplicitEnds(t: Type, tag: Tag, slot: Slot, w: bytes)
    requires w != [] && Takes(ExpOpt(t, tag), w[0])
    ensures var r, h := DecField(ExpOpt(t, tag), slot, w), GetObject(w);
            r.Went? ==>
              && h.Head?
              && var inside := Inside(h, w);
                 var g := GetObject(inside);
                 && g.Head?
                 && (h.indefinite ==> IsClosed(w, r.n))
                 && (h.indefinite && !g.indefinite ==> r.n == h.size + g.size + g.len + 2)
                 && (!h.indefinite ==> r.n <= h.size + h.len)
                 && (!h.indefinite ==> (r.n == h.size + h.len <==> Reach(t, inside) == Some(h.len)))
                 && (!h.indefinite && !g.indefinite ==> (r.n == h.size + h.len <==> g.size + g.len == h.len))
                 && (!h.indefinite && (t.Leaf? || Proper(t, inside)) ==>
                       (r.n == h.size + h.len <==> Extent(inside) == Some(h.len)))
  {
    hide GetObject, Dec, Proper, Extent, Reach;
    EnterStep(ExpOpt(t, tag), slot, w);
    if DecField(ExpOpt(t, tag), slot, w).Went? {
      var inside := Inside(GetObject(w), w);
      TakesAnnounced(t, slot, inside);
      TakesReach(t, slot, inside);
      if t.Leaf? {
        LeafExtent(t, slot, inside);
      } else if Proper(t, inside) {
        TakesExtent(t, slot, inside);
      }
    }
  }

  /** The extent does not tell when there is a fault inside: a wrapper of ten
      octets holds an indefinite record, whose field has a wrapper of four octets
      around a NULL of two. The encoding inside extends to the end of the outer
      wrapper. Read by the macros it ends two octets before. */
  lemma EndsEarly(nul: Type, w: bytes)
    requires nul.Leaf? && nul.codec == Primitive(5)
    requires w == [0xa1, 0x0a, 0x30, 0x80, 0xa0, 0x04, 5, 0, 0, 0, 0, 0]
    ensures var t, h := Record([ExpOpt(nul, 0)]), GetObject(w);
            && h == Head(2, true, false, CONTEXT_SPECIFIC, 1, 10)
            && Extent(Inside(h, w)) == Some(10) && Reach(t, Inside(h, w)) == Some(8)
            && DecField(ExpOpt(t, 1), None, w) == Went(Some(Struct([Some(Atom([]))])), 10)
  {
    hide GetObject, Reach, Dec, DecField, Extent;
    var inside := w[2..12];
    EarlyHeaders(w, inside);
    EarlyRecord(nul, inside);
    TakesReach(Record([ExpOpt(nul, 0)]), None, inside);
    EnterExplicit(Record([ExpOpt(nul, 0)]), 1, None, w, Struct([Some(Atom([]))]), 8);
  }

  lemma EarlyHeaders(w: bytes, inside: bytes)
    requires w == [0xa1, 0x0a, 0x30, 0x80, 0xa0, 0x04, 5, 0, 0, 0, 0, 0]
    requires inside == w[2..12]
    ensures inside == [0x30, 0x80, 0xa0, 0x04, 5, 0, 0, 0, 0, 0]
    ensures GetObject(w) == Head(2, true, false, CONTEXT_SPECIFIC, 1, 10)
    ensures GetObject(inside) == Head(2, true, true, UNIVERSAL, 16, 0)
  {
    assert w[1..][0] == 0x0a && inside[1..][0] == 0x80;
  }

  lemma EarlyRecord(nul: Type, w: bytes)
    requires nul.Leaf? && nul.codec == Primitive(5)
    requires w == [0x30, 0x80, 0xa0, 0x04, 5, 0, 0, 0, 0, 0] && GetObject(w) == Head(2, true, true, UNIVERSAL, 16, 0)
    ensures Dec(Record([ExpOpt(nul, 0)]), None, w) == Done(Struct([Some(Atom([]))]), 8)
    ensures Extent(w) == Some(10)
  {
    hide DecField, DecFields, GetObject, Extent, ContentsExtent;
    var fs: seq<Field>, rest: bytes := [ExpOpt(nul, 0)], [0xa0, 0x04, 5, 0, 0, 0, 0, 0];
    assert w[2..] == rest;
    EarlyField(nul, rest);
    assert Target(fs, None) == [None];
    OneField(fs, rest, Some(Atom([])), 4);
    assert rest[4..] == [0, 0, 0, 0];
    ContentsExtentIs(rest);
    ExtentIs(w, rest);
  }

  lemma OneField(fs: seq<Field>, rest: bytes, s: Slot, n: nat)
    requires |fs| == 1 && DecField(fs[0], None, rest) == Went(s, n)
    ensures DecFields(fs, [None], rest) == FieldsRead([s], n)
  {
    hide DecField;
    assert [s] + [] == [s];
  }

  lemma EarlyField(nul: Type, rest: bytes)
    requires nul.Leaf? && nul.codec == Primitive(5) && rest == [0xa0, 0x04, 5, 0, 0, 0, 0, 0]
    ensures DecField(ExpOpt(nul, 0), None, rest) == Went(Some(Atom([])), 4)
    ensures Extent(rest) == Some(6)
  {
    hide GetObject, Dec, DecField;
    EarlyFieldHeader(rest);
    EarlyNull(nul, rest[2..6]);
    EnterExplicit(nul, 0, None, rest, Atom([]), 2);
  }

  lemma EarlyFieldHeader(rest: bytes)
    requires rest == [0xa0, 0x04, 5, 0, 0, 0, 0, 0]
    ensures GetObject(rest) == Head(2, true, false, CONTEXT_SPECIFIC, 0, 4)
  {
    assert rest[1..][0] == 0x04;
  }

  lemma EarlyNull(nul: Type, inside: bytes)
    requires nul.Leaf? && nul.codec == Primitive(5) && inside == [5, 0, 0, 0]
    ensures Dec(nul, None, inside) == Done(Atom([]), 2)
  {
    assert inside[1..][0] == 0;
    assert GetObject(inside) == Head(2, false, false, UNIVERSAL, 5, 0) && inside[2..2] == [];
  }

  lemma ContentsExtentIs(rest: bytes)
    requires rest == [0xa0, 0x04, 5, 0, 0, 0, 0, 0] && Extent(rest) == Some(6)
    ensures ContentsExtent(rest) == Some(8)
  {
    hide Extent, ContentsExtent;
    ContentsStep(rest, 6);
    ContentsStop(rest[6..]);
  }

  lemma ExtentIs(w: bytes, rest: bytes)
    requires GetObject(w) == Head(2, true, true, UNIVERSAL, 16, 0) && w[2..] == rest
    requires ContentsExtent(rest) == Some(8)
    ensures Extent(w) == Some(10)
  {
    hide GetObject, ContentsExtent;
  }
}
