/** Which octets are accepted: every encoding of an object that X.690 allows, as
    long as no length in it takes more than eight octets, and besides those just
    what the walk of Grammar.Proper finds fault with. */
module Accepted {
  import opened Octets
  import opened Header
  import opened Schema
  import opened Encode
  import opened Decode
  import opened Grammar
  import opened RoundTrip
  import opened WideLengths
  import opened Theorems

  // ------------------------------------------- how far an encoding is taken

  /** Whatever the type, what is accepted has a header, and a definite encoding
      is taken as far as its header announces. */
  lemma TakesAnnounced(t: Type, slot: Slot, w: bytes)
    ensures var r, h := Dec(t, slot, w), GetObject(w);
            r.Done? ==> h.Head? && (!h.indefinite ==> r.n == h.size + h.len)
  {
    hide GetObject;
    match t
    case Leaf(c) => assert ReadsOne(c, w);
    case Record(fs) => AcceptedRecord(fs, slot, w);
    case List(_, _, _, _) => AcceptedList(t, slot, w);
  }

  lemma ProperStart(t: Type, w: bytes)
    requires Proper(t, w)
    ensures w != [] && w[0] != 0
  {
    hide GetObject;
  }

  /** IMPLICIT tagging does not change where an encoding ends. */
  lemma UntaggedExtent(w: bytes, tag: LowTag, typ: LowTag)
    requires w != [] && WithoutConstructed(w[0]) == CONTEXT_SPECIFIC + tag
    ensures Extent(Untag(w, typ)) == Extent(w)
  {
    hide GetObject, ConstructedBit, WithoutConstructed, Untag;
    UntaggedHead(w, tag, typ);
    var h := GetObject(w);
    if h.Head? {
      UntaggedTail(w, h.size, typ);
    }
  }

  lemma UntaggedTail(w: bytes, k: nat, typ: LowTag)
    requires 0 < k <= |w|
    ensures Untag(w, typ)[k..] == w[k..]
  {
  }

  lemma UntaggedHead(w: bytes, tag: LowTag, typ: LowTag)
    requires w != [] && WithoutConstructed(w[0]) == CONTEXT_SPECIFIC + tag
    ensures var h, g := GetObject(w), GetObject(Untag(w, typ));
            if h.Bad? then g.Bad? else g == Head(h.size, h.constructed, h.indefinite, UNIVERSAL, typ, h.len)
  {
    hide GetLength, GetTag, ConstructedBit, ClassBits, WithoutConstructed;
    UntaggedOctet(w[0], tag, typ);
    assert Untag(w, typ)[1..] == w[1..];
  }

  lemma UntaggedOctet(b: byte, tag: LowTag, typ: LowTag)
    requires WithoutConstructed(b) == CONTEXT_SPECIFIC + tag
    ensures b % 32 == tag && ClassBits(b) == CONTEXT_SPECIFIC
    ensures var c := ConstructedBit(b) + typ;
            c < 256 && c % 32 == typ && ClassBits(c) == UNIVERSAL && ConstructedBit(c) == ConstructedBit(b)
  {
  }

  lemma LeafExtent(t: Type, slot: Slot, w: bytes)
    requires t.Leaf? && Dec(t, slot, w).Done?
    ensures Extent(w) == Some(Dec(t, slot, w).n)
  {
    assert ReadsOne(t.codec, w);
  }

  /** Octets with proper identifiers and filled wrappers are taken to the end of
      the encoding that is there. */
  lemma {:induction false} TakesExtent(t: Type, slot: Slot, w: bytes)
    requires Dec(t, slot, w).Done? && Proper(t, w)
    ensures Extent(w) == Some(Dec(t, slot, w).n)
    decreases t, 1
  {
    hide Dec, Proper, Extent;
    match t
    case Leaf(_) => LeafExtent(t, slot, w);
    case Record(fs) => TakesRecord(fs, slot, w);
    case List(e, _, _, _) => TakesList(e, t, slot, w);
  }

  lemma {:induction false} TakesRecord(fs: seq<Field>, slot: Slot, w: bytes)
    requires Dec(Record(fs), slot, w).Done? && Proper(Record(fs), w)
    ensures Extent(w) == Some(Dec(Record(fs), slot, w).n)
    decreases fs, 1
  {
    hide GetObject, DecFields, Target, ProperFields, ContentsExtent, HasIdentifier;
    AcceptedRecord(fs, slot, w);
    var h := GetObject(w);
    if h.indefinite {
      var rest, was := Content(h, w), Target(fs, slot);
      TakesFields(fs, was, rest);
      ContentsStop(rest[DecFields(fs, was, rest).n..]);
    }
  }

  lemma {:induction false} TakesList(e: Type, t: Type, slot: Slot, w: bytes)
    requires t.List? && e == t.elem && Dec(t, slot, w).Done? && Proper(t, w)
    ensures Extent(w) == Some(Dec(t, slot, w).n)
    decreases e, 3
  {
    hide GetObject, DecItems, ProperItems, ContentsExtent, HasIdentifier;
    AcceptedList(t, slot, w);
    var h := GetObject(w);
    if h.indefinite {
      TakesItems(e, Content(h, w));
    }
  }

  lemma {:induction false} TakesItems(e: Type, rest: bytes)
    requires DecItems(e, true, rest).ElementsRead? && ProperItems(e, rest)
    ensures ContentsExtent(rest) == Some(DecItems(e, true, rest).n)
    decreases e, 2, |rest|
  {
    hide Dec, DecItems, Proper, Extent, ContentsExtent;
    AcceptedItem(e, true, rest);
    if AtEndOfContents(rest) {
      ContentsStop(rest);
    } else if rest != [] {
      TakesExtent(e, None, rest);
      ProperStart(e, rest);
      var n := Dec(e, None, rest).n;
      TakesItems(e, rest[n..]);
      ContentsStep(rest, n);
    }
  }

  lemma {:induction false} TakesFields(fs: seq<Field>, slots: seq<Slot>, rest: bytes)
    requires |fs| == |slots| && DecFields(fs, slots, rest).FieldsRead? && ProperFields(fs, rest)
    ensures var n := DecFields(fs, slots, rest).n;
            ContentsExtent(rest) == Later(n, ContentsExtent(rest[n..]))
    decreases fs, 0
  {
    hide Enter, Extent, ContentsExtent, Enters, ProperField;
    if fs == [] {
      assert rest[0..] == rest;
    } else if Enters(fs[0], rest) {
      TakesField(fs[0], slots[0], rest);
      var k := Extent(rest).value;
      TakesFields(fs[1..], slots[1..], rest[k..]);
      ContentsStep(rest, k);
      DropTwice(rest, k, DecFields(fs[1..], slots[1..], rest[k..]).n);
    } else {
      assert rest[0..] == rest;
      TakesFields(fs[1..], slots[1..], rest);
    }
  }

  lemma {:induction false} TakesField(f: Field, slot: Slot, rest: bytes)
    requires Enters(f, rest) && Enter(f, slot, rest).Went? && ProperField(f, rest)
    ensures Extent(rest) == Some(Enter(f, slot, rest).n) && rest != [] && rest[0] != 0
    decreases f, 1
  {
    hide GetObject, Dec, Extent, Inside, Untag, Proper, HasIdentifier;
    EnterStep(f, slot, rest);
    TakesExtent(f.t, slot, Seen(f, rest));
    match f
    case ImpOpt(_, tag, typ) => UntaggedExtent(rest, tag, typ);
    case ExpOpt(t, _) => TakesWrapper(t, slot, rest);
    case _ => ProperStart(f.t, rest);
  }

  lemma TakesWrapper(t: Type, slot: Slot, w: bytes)
    requires w != [] && GetObject(w).Head?
    requires var h := GetObject(w);
             var r := Dec(t, slot, Inside(h, w));
             && r.Done? && Leave(h, w, r).Went? && Proper(t, Inside(h, w)) && Extent(Inside(h, w)) == Some(r.n)
             && (!h.indefinite ==> r.n == h.len)
    ensures var h := GetObject(w);
            Extent(w) == Some(Leave(h, w, Dec(t, slot, Inside(h, w))).n)
  {
    hide GetObject, Dec, Proper, ContentsExtent;
    var h := GetObject(w);
    var n := Dec(t, slot, Inside(h, w)).n;
    ProperStart(t, Inside(h, w));
    if h.indefinite {
      assert Inside(h, w) == w[h.size..][..|w| - 2 - h.size];
      ExtentOfPrefix(w[h.size..], |w| - 2 - h.size);
      DropTwice(w, h.size, n);
      ContentsStep(w[h.size..], n);
      ContentsStop(w[h.size + n..]);
    }
  }

  lemma ContentsStep(w: bytes, n: nat)
    requires w != [] && w[0] != 0 && Extent(w) == Some(n)
    ensures ContentsExtent(w) == Later(n, ContentsExtent(w[n..]))
  {
    hide Extent;
  }

  lemma ContentsStop(w: bytes)
    requires AtEndOfContents(w)
    ensures ContentsExtent(w) == Some(2)
  {
  }

  // ---------------------------------------------- what is accepted is proper

  /** Octets that are accepted, with proper identifiers and filled wrappers, are
      an encoding of what is delivered. */
  lemma {:induction false} AcceptedIsBer(t: Type, w: bytes, most: nat)
    requires most >= ROOM
    requires Dec(t, None, w).Done? && Proper(t, w)
    ensures IsBer(t, Dec(t, None, w).v, w[..Dec(t, None, w).n], most)
    decreases t, 1
  {
    hide GetObject, DecFields, DecItems, Target, ProperFields, ProperItems, HasIdentifier, IsWrapped;
    var r, h := Dec(t, None, w), GetObject(w);
    match t
    case Leaf(c) => assert ReadsOne(c, w);
    case Record(fs) =>
      var slots, rest := Target(fs, None), Content(h, w);
      NothingToFill(fs);
      AcceptedFields(fs, slots, rest, most);
      AcceptedWrap(w, SEQUENCE, UNIVERSAL, DecFields(fs, slots, rest).n, most);
    case List(e, _, tag, cls) =>
      var rest := Content(h, w);
      AcceptedItems(e, h.indefinite, rest, most);
      AcceptedList(t, None, w);
      AcceptedWrap(w, tag, cls, DecItems(e, h.indefinite, rest).n - Closing(h.indefinite), most);
  }

  lemma NothingToFill(fs: seq<Field>)
    ensures forall s <- Target(fs, None) :: s == None
  {
  }

  /** A header with proper identifier octets and the contents behind it. */
  lemma AcceptedWrap(w: bytes, tag: Tag, cls: Class, n: nat, most: nat)
    requires most >= ROOM
    requires HasHead(w, tag, cls) && n <= |Content(GetObject(w), w)|
    requires Finish(GetObject(w).indefinite, Content(GetObject(w), w), n).Some?
    ensures var h := GetObject(w);
            IsWrapped(w[..h.size + n + Closing(h.indefinite)], tag, cls, Content(h, w)[..n], most)
  {
    hide GetObject, HasIdentifier, HeaderIn, Wrap, Content, Finish, AtEndOfContents, IsWrapped;
    var h := GetObject(w);
    BodyOf(w, h, n);
    var form := FormOf(w, tag, cls);
    SameHeader(form, h.len, n, tag, cls);
    if h.indefinite {
      ClosedBody(w, h.size, n);
    } else {
      Split(w, h.size, h.size + n);
    }
    WrapOf(w, h, n, tag, cls, form, most);
  }

  lemma FormOf(w: bytes, tag: Tag, cls: Class) returns (form: LengthForm)
    requires HasHead(w, tag, cls)
    ensures var h := GetObject(w);
            form.Indefinite? == h.indefinite && Within(form, ROOM) && HeaderIn(form, h.len, tag, cls) == w[..h.size]
  {
    hide GetObject, HasIdentifier, HeaderIn;
    HeaderHasForm(w, tag, cls);
    var h := GetObject(w);
    form :|
      && form.Indefinite? == h.indefinite && Within(form, ROOM)
      && HeaderIn(form, h.len, tag, cls) == w[..h.size];
  }

  lemma BodyOf(w: bytes, h: Head, n: nat)
    requires h.Head? && h.size + h.len <= |w| && n <= |Content(h, w)| && Finish(h.indefinite, Content(h, w), n).Some?
    ensures n <= |w[h.size..]| && Content(h, w)[..n] == w[h.size..][..n]
    ensures if h.indefinite then AtEndOfContents(w[h.size..][n..]) else n == h.len
  {
  }

  lemma ClosedBody(w: bytes, k: nat, n: nat)
    requires k <= |w| && n <= |w[k..]| && AtEndOfContents(w[k..][n..])
    ensures w[..k + n + 2] == w[..k] + w[k..][..n] + END_OF_CONTENTS
  {
    Split(w, k, k + n + 2);
    Split(w[k..], n, n + 2);
    assert w[k..][n..][..2] == END_OF_CONTENTS;
  }

  lemma WrapOf(w: bytes, h: Head, n: nat, tag: Tag, cls: Class, form: LengthForm, most: nat)
    requires h.Head? && h.size + n + Closing(h.indefinite) <= |w|
    requires form.Indefinite? == h.indefinite && Within(form, most)
    requires HeaderIn(form, n, tag, cls) == w[..h.size]
    requires h.indefinite ==> w[..h.size + n + 2] == w[..h.size] + w[h.size..][..n] + END_OF_CONTENTS
    requires !h.indefinite ==> w[..h.size + n] == w[..h.size] + w[h.size..][..n]
    ensures IsWrapped(w[..h.size + n + Closing(h.indefinite)], tag, cls, w[h.size..][..n], most)
  {
    hide HeaderIn;
    assert w[..h.size + n + Closing(h.indefinite)] == Wrap(tag, cls, w[h.size..][..n], form);
  }

  lemma SameHeader(form: LengthForm, len: nat, n: nat, tag: Tag, cls: Class)
    requires form.Indefinite? || len == n
    ensures HeaderIn(form, len, tag, cls) == HeaderIn(form, n, tag, cls)
  {
  }

  lemma {:induction false} AcceptedItems(e: Type, indefinite: bool, rest: bytes, most: nat)
    requires most >= ROOM
    requires DecItems(e, indefinite, rest).ElementsRead? && ProperItems(e, rest)
    ensures var r := DecItems(e, indefinite, rest);
            var n := r.n - Closing(indefinite);
            n >= 0 && Finish(indefinite, rest, n).Some? && AreBerItems(e, r.items, rest[..n], most)
    decreases e, 2, |rest|
  {
    hide Dec, DecItems, Proper, IsBer, Extent;
    AcceptedItem(e, indefinite, rest);
    if rest != [] && !AtEndOfContents(rest) {
      TakesExtent(e, None, rest);
      AcceptedIsBer(e, rest, most);
      var k, r := Dec(e, None, rest).n, DecItems(e, indefinite, rest);
      AcceptedItems(e, indefinite, rest[k..], most);
      ConsItems(e, r.items, rest, k, r.n - Closing(indefinite), most);
      DropTwice(rest, k, r.n - Closing(indefinite) - k);
    }
  }

  lemma ConsItems(e: Type, xs: seq<Value>, w: bytes, k: nat, n: nat, most: nat)
    requires xs != [] && k <= n <= |w|
    requires IsBer(e, xs[0], w[..k], most) && AreBerItems(e, xs[1..], w[k..][..n - k], most)
    ensures AreBerItems(e, xs, w[..n], most)
  {
    hide IsBer;
    TakeTwice(w, k, n);
    assert ItemEndsAt(e, xs, w[..n], k, most);
  }

  lemma TakeTwice(w: bytes, k: nat, n: nat)
    requires k <= n <= |w|
    ensures w[..n][..k] == w[..k] && w[..n][k..] == w[k..][..n - k]
  {
  }

  lemma {:induction false} AcceptedFields(fs: seq<Field>, slots: seq<Slot>, rest: bytes, most: nat)
    requires most >= ROOM
    requires |fs| == |slots| && (forall s <- slots :: s == None)
    requires DecFields(fs, slots, rest).FieldsRead? && ProperFields(fs, rest)
    ensures var r := DecFields(fs, slots, rest);
            AreBerFields(fs, r.slots, rest[..r.n], most)
    decreases fs, 0
  {
    hide DecField, IsBerField, Enters, ProperField, Extent;
    if fs != [] {
      assert slots[0] in slots;
      AcceptedField(fs[0], rest, most);
      var k := DecField(fs[0], None, rest).n;
      assert rest[0..] == rest;
      forall s <- slots[1..] ensures s == None {
        assert s in slots;
      }
      AcceptedFields(fs[1..], slots[1..], rest[k..], most);
      var r := DecFields(fs, slots, rest);
      assert r.slots[1..] == DecFields(fs[1..], slots[1..], rest[k..]).slots;
      TakeTwice(rest, k, r.n);
      assert FieldEndsAt(fs, r.slots, rest[..r.n], k, most);
    }
  }

  lemma {:induction false} AcceptedField(f: Field, rest: bytes, most: nat)
    requires most >= ROOM
    requires DecField(f, None, rest).Went?
    requires Enters(f, rest) ==> ProperField(f, rest)
    ensures var step := DecField(f, None, rest);
            && IsBerField(f, step.slot, rest[..step.n], most)
            && (if Enters(f, rest) then Extent(rest) == Some(step.n) else step.n == 0)
    decreases f, 1
  {
    hide GetObject, Dec, Extent, Inside, IsBer, Proper, HasIdentifier;
    if Enters(f, rest) {
      EnterStep(f, None, rest);
      TakesField(f, None, rest);
      TakesExtent(f.t, None, Seen(f, rest));
      AcceptedIsBer(f.t, Seen(f, rest), most);
      match f
      case ImpOpt(t, tag, typ) => AcceptedRetag(t, tag, typ, rest, most);
      case ExpOpt(t, mtag) => AcceptedWrapper(t, mtag, rest, most);
      case _ =>
    }
  }

  lemma AcceptedRetag(t: Type, tag: LowTag, typ: LowTag, rest: bytes, most: nat)
    requires rest != [] && WithoutConstructed(rest[0]) == CONTEXT_SPECIFIC + tag
    requires Dec(t, None, Untag(rest, typ)).Done?
    requires var r := Dec(t, None, Untag(rest, typ)); IsBer(t, r.v, Untag(rest, typ)[..r.n], most)
    ensures var r := Dec(t, None, Untag(rest, typ)); IsBerField(ImpOpt(t, tag, typ), Some(r.v), rest[..r.n], most)
  {
    hide Dec, IsBer;
    var r := Dec(t, None, Untag(rest, typ));
    var inner := Untag(rest, typ)[..r.n];
    assert inner[0] == ConstructedBit(rest[0]) + typ;
    assert inner[1..] == rest[1..r.n];
    assert Retag(inner, tag) == rest[..r.n];
    assert IsRetagged(rest[..r.n], inner, tag, typ);
  }

  lemma AcceptedWrapper(t: Type, mtag: Tag, rest: bytes, most: nat)
    requires most >= ROOM
    requires rest != [] && HasHead(rest, mtag, CONTEXT_SPECIFIC)
    requires var h := GetObject(rest);
             var r := Dec(t, None, Inside(h, rest));
             && r.Done? && IsBer(t, r.v, Inside(h, rest)[..r.n], most) && Leave(h, rest, r).Went?
             && (!h.indefinite ==> r.n == h.len)
    ensures var h := GetObject(rest);
            var r := Dec(t, None, Inside(h, rest));
            IsBerField(ExpOpt(t, mtag), Some(r.v), rest[..Leave(h, rest, r).n], most)
  {
    hide Dec, IsBer, GetObject, HasIdentifier, IsWrapped;
    var h := GetObject(rest);
    var n := Dec(t, None, Inside(h, rest)).n;
    if h.indefinite {
      DropTwice(rest, h.size, n);
    }
    AcceptedWrap(rest, mtag, CONTEXT_SPECIFIC, n, most);
    assert Inside(h, rest)[..n] == Content(h, rest)[..n];
  }

  // --------------------------------------------- every encoding is proper

  lemma WrapExtent(tag: Tag, cls: Class, body: bytes, form: LengthForm, rest: bytes)
    requires Within(form, ROOM) && (cls == UNIVERSAL ==> tag <= MAX_UNIVERSAL) && |body| <= LONG_MAX
    requires form.Indefinite? ==> ContentsExtent(body + (END_OF_CONTENTS + rest)) == Some(|body| + 2)
    ensures Extent(Wrap(tag, cls, body, form) + rest) == Some(|Wrap(tag, cls, body, form)|)
  {
    hide GetObject, HeaderIn, ContentsExtent;
    if form.Indefinite? {
      IndefiniteHead(tag, cls, body, rest);
    } else {
      DefiniteHead(tag, cls, body, form, rest);
    }
  }

  /** An encoding ends where the headers in it say, whatever follows. */
  lemma {:induction false} BerExtent(t: Type, v: Value, e: bytes, rest: bytes)
    requires WellTagged(t) && IsBer(t, v, e, ROOM) && |e| <= LONG_MAX
    ensures Extent(e + rest) == Some(|e|) && e[0] != 0
    decreases t, 1
  {
    hide Wrap, Extent, ContentsExtent;
    StartsProperly(t, v, e, ROOM);
    StartsNonzero(t, e[0]);
    match t
    case Leaf(c) =>
      assert ReadsOne(c, e) && (e + rest)[..|e|] == e;
      ExtentOfPrefix(e + rest, |e|);
    case Record(fs) =>
      var body: bytes :| IsWrapped(e, SEQUENCE, UNIVERSAL, body, ROOM) && AreBerFields(fs, v.fields, body, ROOM);
      var form: LengthForm :| Within(form, ROOM) && e == Wrap(SEQUENCE, UNIVERSAL, body, form);
      BerFieldsExtent(fs, v.fields, body, END_OF_CONTENTS + rest);
      WrapExtent(SEQUENCE, UNIVERSAL, body, form, rest);
    case List(elem, _, tag, cls) =>
      var body: bytes :| IsWrapped(e, tag, cls, body, ROOM) && AreBerItems(elem, v.items, body, ROOM);
      var form: LengthForm :| Within(form, ROOM) && e == Wrap(tag, cls, body, form);
      BerItemsExtent(elem, v.items, body, END_OF_CONTENTS + rest);
      WrapExtent(tag, cls, body, form, rest);
  }

  lemma {:induction false} BerItemsExtent(elem: Type, xs: seq<Value>, e: bytes, tail: bytes)
    requires WellTagged(elem) && AreBerItems(elem, xs, e, ROOM) && |e| <= LONG_MAX && AtEndOfContents(tail)
    ensures ContentsExtent(e + tail) == Some(|e| + 2)
    decreases elem, 2, |xs|
  {
    hide IsBer, Extent, ContentsExtent;
    if xs == [] {
      assert e + tail == tail;
      ContentsStop(tail);
    } else {
      var k: nat :| ItemEndsAt(elem, xs, e, k, ROOM);
      BerExtent(elem, xs[0], e[..k], e[k..] + tail);
      BerItemsExtent(elem, xs[1..], e[k..], tail);
      SplitAt(e, k, tail);
      ContentsStep(e + tail, k);
    }
  }

  lemma {:induction false} BerFieldsExtent(fs: seq<Field>, slots: seq<Slot>, e: bytes, tail: bytes)
    requires WellTaggedFields(fs) && AreBerFields(fs, slots, e, ROOM) && |e| <= LONG_MAX && AtEndOfContents(tail)
    ensures ContentsExtent(e + tail) == Some(|e| + 2)
    decreases fs, 0
  {
    hide IsBerField, Extent, ContentsExtent;
    if fs == [] {
      assert e + tail == tail;
      ContentsStop(tail);
    } else {
      var k: nat :| FieldEndsAt(fs, slots, e, k, ROOM);
      BerFieldExtent(fs[0], slots[0], e[..k], e[k..] + tail);
      BerFieldsExtent(fs[1..], slots[1..], e[k..], tail);
      SplitAt(e, k, tail);
      if k > 0 {
        ContentsStep(e + tail, k);
      }
    }
  }

  lemma {:induction false} BerFieldExtent(f: Field, slot: Slot, e: bytes, rest: bytes)
    requires WellTaggedField(f) && IsBerField(f, slot, e, ROOM) && |e| <= LONG_MAX
    ensures if slot.None? then e == [] else e != [] && e[0] != 0 && Extent(e + rest) == Some(|e|)
    decreases f, 1
  {
    hide IsBer, Wrap, Extent, ContentsExtent;
    if slot.Some? {
      var t, v := f.t, slot.value;
      match f
      case ImpOpt(_, tag, typ) =>
        var inner: bytes :| IsRetagged(e, inner, tag, typ) && IsBer(t, v, inner, ROOM);
        BerExtent(t, v, inner, rest);
        RetaggedExtent(inner, rest, tag, typ);
      case ExpOpt(_, mtag) =>
        var inner: bytes :| IsWrapped(e, mtag, CONTEXT_SPECIFIC, inner, ROOM) && IsBer(t, v, inner, ROOM);
        var form: LengthForm :| Within(form, ROOM) && e == Wrap(mtag, CONTEXT_SPECIFIC, inner, form);
        BerExtent(t, v, inner, END_OF_CONTENTS + rest);
        OneInside(inner, rest);
        WrapExtent(mtag, CONTEXT_SPECIFIC, inner, form, rest);
      case _ => BerExtent(t, v, e, rest);
    }
  }

  lemma RetaggedExtent(e: bytes, rest: bytes, tag: LowTag, typ: LowTag)
    requires e != [] && WithoutConstructed(e[0]) == typ && Extent(e + rest) == Some(|e|)
    ensures var r := Retag(e, tag); r[0] != 0 && Extent(r + rest) == Some(|e|)
  {
    hide Extent, Retag, Untag;
    RetagUntag(e, rest, tag, typ);
    UntaggedExtent(Retag(e, tag) + rest, tag, typ);
  }

  lemma OneInside(e: bytes, rest: bytes)
    requires e != [] && e[0] != 0 && Extent(e + (END_OF_CONTENTS + rest)) == Some(|e|)
    ensures ContentsExtent(e + (END_OF_CONTENTS + rest)) == Some(|e| + 2)
  {
    hide Extent, ContentsExtent;
    ContentsStep(e + (END_OF_CONTENTS + rest), |e|);
    ContentsStop(END_OF_CONTENTS + rest);
  }

  lemma WrapHasHead(tag: Tag, cls: Class, body: bytes, form: LengthForm, rest: bytes)
    requires Within(form, ROOM) && (cls == UNIVERSAL ==> tag <= MAX_UNIVERSAL) && |body| <= LONG_MAX
    ensures var w := Wrap(tag, cls, body, form) + rest;
            HasHead(w, tag, cls) && Content(GetObject(w), w) == body + Tail(form.Indefinite?, rest)
  {
    hide GetObject, HasIdentifier, Wrap;
    WrapRoundTrip(tag, cls, body, form, rest);
    WrapHasIdentifier(tag, cls, body, form, rest);
  }

  lemma WrapHasIdentifier(tag: Tag, cls: Class, body: bytes, form: LengthForm, rest: bytes)
    ensures HasIdentifier(Wrap(tag, cls, body, form) + rest, tag, cls)
  {
    hide IdOctets, LengthIn;
    var id := IdOctets(true, tag, cls);
    assert id <= HeaderIn(form, |body|, tag, cls);
    assert HeaderIn(form, |body|, tag, cls) <= Wrap(tag, cls, body, form);
  }

  /** Every encoding is proper, whatever follows. */
  lemma {:induction false} BerIsProper(t: Type, v: Value, e: bytes, rest: bytes)
    requires WellTagged(t) && IsBer(t, v, e, ROOM) && |e| <= LONG_MAX
    ensures Proper(t, e + rest)
    decreases t, 1
  {
    hide Wrap, GetObject, HasIdentifier, Content, Tail;
    match t
    case Leaf(_) =>
    case Record(fs) =>
      var body: bytes :| IsWrapped(e, SEQUENCE, UNIVERSAL, body, ROOM) && AreBerFields(fs, v.fields, body, ROOM);
      var form: LengthForm :| Within(form, ROOM) && e == Wrap(SEQUENCE, UNIVERSAL, body, form);
      WrapHasHead(SEQUENCE, UNIVERSAL, body, form, rest);
      TailIsEnd(form.Indefinite?, rest);
      BerFieldsAreProper(fs, v.fields, body, Tail(form.Indefinite?, rest));
    case List(elem, _, tag, cls) =>
      var body: bytes :| IsWrapped(e, tag, cls, body, ROOM) && AreBerItems(elem, v.items, body, ROOM);
      var form: LengthForm :| Within(form, ROOM) && e == Wrap(tag, cls, body, form);
      WrapHasHead(tag, cls, body, form, rest);
      TailIsEnd(form.Indefinite?, rest);
      BerItemsAreProper(elem, v.items, body, Tail(form.Indefinite?, rest));
  }

  lemma {:induction false} BerItemsAreProper(elem: Type, xs: seq<Value>, e: bytes, tail: bytes)
    requires WellTagged(elem) && AreBerItems(elem, xs, e, ROOM) && |e| <= LONG_MAX
    requires IsEnd(true, tail) || IsEnd(false, tail)
    ensures ProperItems(elem, e + tail)
    decreases elem, 2, |xs|
  {
    hide IsBer, Extent, Proper;
    if xs == [] {
      assert e + tail == tail;
    } else {
      var k: nat :| ItemEndsAt(elem, xs, e, k, ROOM);
      BerExtent(elem, xs[0], e[..k], e[k..] + tail);
      BerIsProper(elem, xs[0], e[..k], e[k..] + tail);
      BerItemsAreProper(elem, xs[1..], e[k..], tail);
      SplitAt(e, k, tail);
    }
  }

  lemma {:induction false} BerFieldsAreProper(fs: seq<Field>, slots: seq<Slot>, e: bytes, tail: bytes)
    requires WellTaggedFields(fs) && AreBerFields(fs, slots, e, ROOM) && |e| <= LONG_MAX
    requires IsEnd(true, tail) || IsEnd(false, tail)
    ensures ProperFields(fs, e + tail)
    decreases fs, 0
  {
    hide IsBerField, Extent, Takes, Follows, ProperField;
    if fs != [] {
      var k: nat :| FieldEndsAt(fs, slots, e, k, ROOM);
      AbsentIsSkipped(fs, slots, k, e, tail, ROOM);
      BerFieldExtent(fs[0], slots[0], e[..k], e[k..] + tail);
      if slots[0].Some? {
        BerFieldIsProper(fs[0], slots[0].value, e[..k], e[k..] + tail);
      } else {
        FieldLeads(fs[0], slots[0], e[..k], ROOM);
      }
      BerFieldsAreProper(fs[1..], slots[1..], e[k..], tail);
      SplitAt(e, k, tail);
    }
  }

  lemma {:induction false} BerFieldIsProper(f: Field, v: Value, e: bytes, rest: bytes)
    requires WellTaggedField(f) && IsBerField(f, Some(v), e, ROOM) && |e| <= LONG_MAX
    ensures Enters(f, e + rest) && ProperField(f, e + rest)
    decreases f, 1
  {
    hide IsBer, Wrap, Extent, GetObject, HasIdentifier, Proper, Content, Inside;
    FieldLeads(f, Some(v), e, ROOM);
    var t := f.t;
    match f
    case ImpOpt(_, tag, typ) =>
      var inner: bytes :| IsRetagged(e, inner, tag, typ) && IsBer(t, v, inner, ROOM);
      BerIsProper(t, v, inner, rest);
      RetagUntag(inner, rest, tag, typ);
    case ExpOpt(_, mtag) =>
      var inner: bytes :| IsWrapped(e, mtag, CONTEXT_SPECIFIC, inner, ROOM) && IsBer(t, v, inner, ROOM);
      var form: LengthForm :| Within(form, ROOM) && e == Wrap(mtag, CONTEXT_SPECIFIC, inner, form);
      var more := HeldBack(form.Indefinite?, rest);
      BerIsProper(t, v, inner, more);
      BerExtent(t, v, inner, more);
      WrapInside(mtag, inner, form, rest);
    case _ =>
      BerIsProper(t, v, e, rest);
  }

  lemma WrapInside(mtag: Tag, inner: bytes, form: LengthForm, rest: bytes)
    requires Within(form, ROOM) && |inner| <= LONG_MAX
    ensures var w := Wrap(mtag, CONTEXT_SPECIFIC, inner, form) + rest;
            && HasHead(w, mtag, CONTEXT_SPECIFIC)
            && GetObject(w).indefinite == form.Indefinite?
            && Inside(GetObject(w), w) == inner + HeldBack(form.Indefinite?, rest)
            && (!form.Indefinite? ==> GetObject(w).len == |inner|)
  {
    hide Wrap, GetObject, HasIdentifier;
    var w := Wrap(mtag, CONTEXT_SPECIFIC, inner, form) + rest;
    WrapHasHead(mtag, CONTEXT_SPECIFIC, inner, form, rest);
    WrapRoundTrip(mtag, CONTEXT_SPECIFIC, inner, form, rest);
    InsideContent(GetObject(w), w, inner, rest);
  }

  // ---------------------------------------------------------- main results

  /** The octets `e` are an encoding of `v`, with no length in more than eight
      octets, exactly when d2i reads them as `v` and takes them all, every
      identifier octet is in its proper form and every definite EXPLICIT wrapper
      is filled; whatever follows them. Of the octets that are read, X.690 allows
      no others either. */
  lemma EncodingsAreAccepted(t: Type, v: Value, e: bytes, rest: bytes)
    requires WellTagged(t) && |e| <= LONG_MAX
    ensures IsBer(t, v, e, ROOM) <==> Dec(t, None, e + rest) == Done(v, |e|) && Proper(t, e + rest)
    ensures Dec(t, None, e + rest) == Done(v, |e|) ==> (IsBer(t, v, e, MOST) <==> Proper(t, e + rest))
  {
    hide IsBer, Dec, Proper;
    if IsBer(t, v, e, MOST) {
      ReadWhenWithin(t, None, v, e, rest);
    }
    if IsBer(t, v, e, ROOM) {
      ObjectRoundTrip(t, None, v, e, rest);
      OverNothing(t, v);
      BerIsProper(t, v, e, rest);
    }
    assert (e + rest)[..|e|] == e;
    if Dec(t, None, e + rest) == Done(v, |e|) && Proper(t, e + rest) {
      AcceptedIsBer(t, e + rest, ROOM);
      AcceptedIsBer(t, e + rest, MOST);
    }
  }

  /** What a d2i takes from a window is an encoding of what it delivers, as X.690
      allows it, exactly when the walk finds no fault with it. */
  lemma AcceptedExactly(t: Type, w: bytes)
    requires WellTagged(t) && |w| <= LONG_MAX
    ensures var r := Dec(t, None, w);
            r.Done? ==> (IsBer(t, r.v, w[..r.n], MOST) <==> Proper(t, w))
  {
    hide IsBer, Dec, Proper;
    var r := Dec(t, None, w);
    if r.Done? {
      assert w == w[..r.n] + w[r.n..];
      EncodingsAreAccepted(t, r.v, w[..r.n], w[r.n..]);
    }
  }

  /** The reader takes what section 8.1.2 of X.690 does not allow: the form of a
      high tag for a tag below 31, and leading zero digits in it. The walk finds
      fault with both. */
  lemma UnusualIdentifiers()
    ensures var t, w := Record([]), [0x3f, 0x10, 0]; Dec(t, None, w) == Done(Struct([]), 3) && !Proper(t, w)
    ensures var t, w := Record([]), [0x3f, 0x80, 0x10, 0]; Dec(t, None, w) == Done(Struct([]), 4) && !Proper(t, w)
  {
    var w1: bytes, w2: bytes := [0x3f, 0x10, 0], [0x3f, 0x80, 0x10, 0];
    assert GetTag(w1[1..], 0) == Some((16, 1));
    assert GetObject(w1) == Head(3, true, false, UNIVERSAL, 16, 0);
    assert w2[1..][1..] == [0x10, 0];
    assert GetTag(w2[1..], 0) == Some((16, 2));
    assert GetObject(w2) == Head(4, true, false, UNIVERSAL, 16, 0);
    EmptyRecord(w1);
    EmptyRecord(w2);
  }

  lemma EmptyRecord(w: bytes)
    requires GetObject(w) == Head(|w|, true, false, UNIVERSAL, 16, 0) && w[0] == 0x3f
    ensures Dec(Record([]), None, w) == Done(Struct([]), |w|) && !Proper(Record([]), w)
  {
    hide GetObject;
    assert Target([], None) == [];
  }
}
