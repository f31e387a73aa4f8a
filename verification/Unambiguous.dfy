/** With tags that can be told apart, octets determine the object they encode and
    where its encoding ends: for every encoding that X.690 allows, whether the
    reader takes it or not. */
module Unambiguous {
  import opened Octets
  import opened Header
  import opened Schema
  import opened Encode
  import opened Decode
  import opened Grammar
  import opened RoundTrip

  lemma Cancel(e1: bytes, r1: bytes, e2: bytes, r2: bytes)
    requires e1 + r1 == e2 + r2 && (r1 == r2 || |e1| == |e2|)
    ensures e1 == e2 && r1 == r2
  {
    assert e1 == (e1 + r1)[..|e1|] && e2 == (e2 + r2)[..|e2|];
    assert r1 == (e1 + r1)[|e1|..] && r2 == (e2 + r2)[|e2|..];
  }

  // ----------------------------------------------------------------- headers

  /** The first octet of a length says how many follow, and those say the rest. */
  lemma LengthShape(form: LengthForm, len: nat)
    requires !form.Indefinite? && len <= LONG_MAX
    ensures var l := LengthIn(form, len);
            && l[0] != INDEFINITE
            && |l| == (if l[0] < 0x80 then 1 else 1 + (l[0] - 0x80))
            && len == (if l[0] < 0x80 then l[0] else FromBase256(l[1..]))
  {
    hide Base256, FromBase256, Padded;
    if form.Long? && |Base256(len)| <= form.octets {
      PaddedRoundTrip(form.octets, len);
      assert LengthIn(form, len)[1..] == Padded(form.octets, len);
    } else if len > 127 {
      WideLength(len);
      assert LengthOctets(len)[1..] == Base256(len);
    }
  }

  lemma UniqueLength(f1: LengthForm, len1: nat, r1: bytes, f2: LengthForm, len2: nat, r2: bytes)
    requires !f1.Indefinite? && !f2.Indefinite? && len1 <= LONG_MAX && len2 <= LONG_MAX
    requires LengthIn(f1, len1) + r1 == LengthIn(f2, len2) + r2
    ensures len1 == len2 && r1 == r2
  {
    hide LengthIn, FromBase256;
    var l1, l2 := LengthIn(f1, len1), LengthIn(f2, len2);
    LengthShape(f1, len1);
    LengthShape(f2, len2);
    assert l1[0] == (l1 + r1)[0] && l2[0] == (l2 + r2)[0];
    Cancel(l1, r1, l2, r2);
  }

  lemma UniqueHeader(tag: Tag, cls: Class, f1: LengthForm, len1: nat, r1: bytes, f2: LengthForm, len2: nat, r2: bytes)
    requires len1 <= LONG_MAX && len2 <= LONG_MAX
    requires HeaderIn(f1, len1, tag, cls) + r1 == HeaderIn(f2, len2, tag, cls) + r2
    ensures f1.Indefinite? == f2.Indefinite? && r1 == r2 && (!f1.Indefinite? ==> len1 == len2)
  {
    hide LengthIn, IdOctets;
    var id := IdOctets(true, tag, cls);
    var l1 := if f1.Indefinite? then [INDEFINITE] else LengthIn(f1, len1);
    var l2 := if f2.Indefinite? then [INDEFINITE] else LengthIn(f2, len2);
    Assoc(id, l1, r1);
    Assoc(id, l2, r2);
    Cancel(id, l1 + r1, id, l2 + r2);
    assert l1[0] == (l1 + r1)[0] && l2[0] == (l2 + r2)[0];
    if !f1.Indefinite? {
      LengthShape(f1, len1);
    }
    if !f2.Indefinite? {
      LengthShape(f2, len2);
    }
    if f1.Indefinite? {
      Cancel(l1, r1, l2, r2);
    } else {
      UniqueLength(f1, len1, r1, f2, len2, r2);
    }
  }

  /** What follows the contents up to where the wrapper's own octets end. */
  lemma UniqueWrap(tag: Tag, cls: Class, b1: bytes, f1: LengthForm, r1: bytes, b2: bytes, f2: LengthForm, r2: bytes)
    requires |b1| <= LONG_MAX && |b2| <= LONG_MAX
    requires Wrap(tag, cls, b1, f1) + r1 == Wrap(tag, cls, b2, f2) + r2
    ensures f1.Indefinite? == f2.Indefinite?
    ensures b1 + Tail(f1.Indefinite?, r1) == b2 + Tail(f1.Indefinite?, r2)
    ensures !f1.Indefinite? ==> r1 == r2
  {
    hide HeaderIn;
    var h1, h2 := HeaderIn(f1, |b1|, tag, cls), HeaderIn(f2, |b2|, tag, cls);
    var c1 := if f1.Indefinite? then END_OF_CONTENTS else [];
    var c2 := if f2.Indefinite? then END_OF_CONTENTS else [];
    Regroup(h1, b1, c1, r1);
    Regroup(h2, b2, c2, r2);
    UniqueHeader(tag, cls, f1, |b1|, b1 + (c1 + r1), f2, |b2|, b2 + (c2 + r2));
    if !f1.Indefinite? {
      assert c1 + r1 == r1 && c2 + r2 == r2;
      Cancel(b1, r1, b2, r2);
    }
  }

  lemma TailsAgree(indefinite: bool, r1: bytes, r2: bytes)
    requires indefinite && Tail(indefinite, r1) == Tail(indefinite, r2)
    ensures r1 == r2
  {
    Cancel(END_OF_CONTENTS, r1, END_OF_CONTENTS, r2);
  }

  // ---------------------------------------------------------------- objects

  /** No octets begin with encodings of two objects, nor with two encodings. */
  lemma {:induction false} NoAmbiguity(t: Type, v1: Value, e1: bytes, r1: bytes, v2: Value, e2: bytes, r2: bytes)
    requires WellTagged(t) && IsBer(t, v1, e1, MOST) && IsBer(t, v2, e2, MOST)
    requires |e1| <= LONG_MAX && |e2| <= LONG_MAX && e1 + r1 == e2 + r2
    ensures v1 == v2 && e1 == e2 && r1 == r2
    decreases t, 1
  {
    hide Wrap, Tail;
    match t
    case Leaf(c) =>
      assert StopsThere(c, e1, r1) && StopsThere(c, e2, r2);
      Cancel(e1, r1, e2, r2);
    case Record(fs) =>
      var b1: bytes :| IsWrapped(e1, SEQUENCE, UNIVERSAL, b1, MOST) && AreBerFields(fs, v1.fields, b1, MOST);
      var b2: bytes :| IsWrapped(e2, SEQUENCE, UNIVERSAL, b2, MOST) && AreBerFields(fs, v2.fields, b2, MOST);
      var indefinite := SameWrap(SEQUENCE, UNIVERSAL, b1, e1, r1, b2, e2, r2);
      UniqueFields(fs, v1.fields, b1, Tail(indefinite, r1), v2.fields, b2, Tail(indefinite, r2), indefinite);
      SameEnds(indefinite, e1, r1, e2, r2);
    case List(elem, _, tag, cls) =>
      var b1: bytes :| IsWrapped(e1, tag, cls, b1, MOST) && AreBerItems(elem, v1.items, b1, MOST);
      var b2: bytes :| IsWrapped(e2, tag, cls, b2, MOST) && AreBerItems(elem, v2.items, b2, MOST);
      var indefinite := SameWrap(tag, cls, b1, e1, r1, b2, e2, r2);
      UniqueItems(elem, v1.items, b1, Tail(indefinite, r1), v2.items, b2, Tail(indefinite, r2), indefinite);
      SameEnds(indefinite, e1, r1, e2, r2);
  }

  lemma SameWrap(tag: Tag, cls: Class, b1: bytes, e1: bytes, r1: bytes, b2: bytes, e2: bytes, r2: bytes)
    returns (indefinite: bool)
    requires IsWrapped(e1, tag, cls, b1, MOST) && IsWrapped(e2, tag, cls, b2, MOST)
    requires |e1| <= LONG_MAX && |e2| <= LONG_MAX && e1 + r1 == e2 + r2
    ensures |b1| < |e1| && |b2| < |e2|
    ensures b1 + Tail(indefinite, r1) == b2 + Tail(indefinite, r2)
    ensures IsEnd(indefinite, Tail(indefinite, r1)) && IsEnd(indefinite, Tail(indefinite, r2))
    ensures !indefinite ==> r1 == r2
  {
    hide Wrap, Tail;
    var f1: LengthForm :| e1 == Wrap(tag, cls, b1, f1);
    var f2: LengthForm :| e2 == Wrap(tag, cls, b2, f2);
    indefinite := f1.Indefinite?;
    UniqueWrap(tag, cls, b1, f1, r1, b2, f2, r2);
    TailIsEnd(indefinite, r1);
    TailIsEnd(indefinite, r2);
  }

  lemma SameEnds(indefinite: bool, e1: bytes, r1: bytes, e2: bytes, r2: bytes)
    requires e1 + r1 == e2 + r2
    requires if indefinite then Tail(indefinite, r1) == Tail(indefinite, r2) else r1 == r2
    ensures e1 == e2 && r1 == r2
  {
    if indefinite {
      TailsAgree(indefinite, r1, r2);
    }
    Cancel(e1, r1, e2, r2);
  }

  lemma {:induction false} UniqueItems(elem: Type, xs: seq<Value>, e1: bytes, t1: bytes,
                                       ys: seq<Value>, e2: bytes, t2: bytes, indefinite: bool)
    requires WellTagged(elem) && AreBerItems(elem, xs, e1, MOST) && AreBerItems(elem, ys, e2, MOST)
    requires |e1| <= LONG_MAX && |e2| <= LONG_MAX && e1 + t1 == e2 + t2
    requires IsEnd(indefinite, t1) && IsEnd(indefinite, t2)
    ensures xs == ys && e1 == e2 && t1 == t2
    decreases elem, 2, |xs|
  {
    hide IsBer, WellTagged;
    ItemsStart(elem, xs, e1, t1, indefinite);
    ItemsStart(elem, ys, e2, t2, indefinite);
    if xs != [] {
      var k1: nat :| ItemEndsAt(elem, xs, e1, k1, MOST);
      var k2: nat :| ItemEndsAt(elem, ys, e2, k2, MOST);
      SplitAt(e1, k1, t1);
      SplitAt(e2, k2, t2);
      NoAmbiguity(elem, xs[0], e1[..k1], e1[k1..] + t1, ys[0], e2[..k2], e2[k2..] + t2);
      UniqueItems(elem, xs[1..], e1[k1..], t1, ys[1..], e2[k2..], t2, indefinite);
      assert e1 == e1[..k1] + e1[k1..] && e2 == e2[..k2] + e2[k2..];
      assert xs == [xs[0]] + xs[1..] && ys == [ys[0]] + ys[1..];
    } else {
      Cancel(e1, t1, e2, t2);
    }
  }

  lemma ItemsStart(elem: Type, xs: seq<Value>, e: bytes, tail: bytes, indefinite: bool)
    requires AreBerItems(elem, xs, e, MOST) && IsEnd(indefinite, tail)
    ensures if xs == [] then e == [] else !IsEnd(indefinite, e + tail)
  {
    hide IsBer, Starts;
    if xs != [] {
      var k: nat :| ItemEndsAt(elem, xs, e, k, MOST);
      StartsProperly(elem, xs[0], e[..k], MOST);
      StartsNonzero(elem, e[0]);
      assert (e + tail)[0] == e[0];
    }
  }

  lemma {:induction false} UniqueFields(fs: seq<Field>, ss: seq<Slot>, e1: bytes, t1: bytes,
                                        us: seq<Slot>, e2: bytes, t2: bytes, indefinite: bool)
    requires WellTaggedFields(fs) && AreBerFields(fs, ss, e1, MOST) && AreBerFields(fs, us, e2, MOST)
    requires |e1| <= LONG_MAX && |e2| <= LONG_MAX && e1 + t1 == e2 + t2
    requires IsEnd(indefinite, t1) && IsEnd(indefinite, t2)
    ensures ss == us && e1 == e2 && t1 == t2
    decreases fs, 0
  {
    hide IsBerField, Takes, Follows, IsEnd;
    if fs != [] {
      var k1: nat :| FieldEndsAt(fs, ss, e1, k1, MOST);
      var k2: nat :| FieldEndsAt(fs, us, e2, k2, MOST);
      FieldShows(fs, ss, k1, e1, t1, indefinite);
      FieldShows(fs, us, k2, e2, t2, indefinite);
      SplitAt(e1, k1, t1);
      SplitAt(e2, k2, t2);
      if ss[0].Some? && us[0].Some? {
        UniqueField(fs[0], ss[0].value, e1[..k1], e1[k1..] + t1, us[0].value, e2[..k2], e2[k2..] + t2);
      }
      assert e1[k1..] + t1 == e2[k2..] + t2;
      UniqueFields(fs[1..], ss[1..], e1[k1..], t1, us[1..], e2[k2..], t2, indefinite);
      assert e1 == e1[..k1] + e1[k1..] && e2 == e2[..k2] + e2[k2..];
      assert ss == [ss[0]] + ss[1..] && us == [us[0]] + us[1..];
    } else {
      Cancel(e1, t1, e2, t2);
    }
  }

  /** The guard tells whether the field is there; a mandatory one always is. */
  lemma FieldShows(fs: seq<Field>, ss: seq<Slot>, k: nat, e: bytes, tail: bytes, indefinite: bool)
    requires fs != [] && |fs| == |ss| && WellTaggedFields(fs) && FieldEndsAt(fs, ss, e, k, MOST)
    requires IsEnd(indefinite, tail)
    ensures if ss[0].None? then e[..k] == [] && !Enters(fs[0], e + tail) else Enters(fs[0], e + tail)
    ensures fs[0].Plain? ==> ss[0].Some?
  {
    hide IsBerField, Follows, Leads, Takes;
    AbsentIsSkipped(fs, ss, k, e, tail, MOST);
    FieldLeads(fs[0], ss[0], e[..k], MOST);
    if ss[0].Some? {
      LedIsTaken(fs[0], e[0]);
    }
  }

  lemma LedIsTaken(f: Field, b: byte)
    requires WellTaggedField(f) && Leads(f, b)
    ensures Takes(f, b)
  {
    hide WellTagged;
  }

  lemma {:induction false} UniqueField(f: Field, v1: Value, e1: bytes, r1: bytes, v2: Value, e2: bytes, r2: bytes)
    requires WellTaggedField(f) && IsBerField(f, Some(v1), e1, MOST) && IsBerField(f, Some(v2), e2, MOST)
    requires |e1| <= LONG_MAX && |e2| <= LONG_MAX && e1 + r1 == e2 + r2
    ensures v1 == v2 && e1 == e2 && r1 == r2
    decreases f, 1
  {
    hide IsBer, Retag, Wrap, Tail;
    var t := f.t;
    match f
    case ImpOpt(_, tag, typ) =>
      var i1: bytes :| IsRetagged(e1, i1, tag, typ) && IsBer(t, v1, i1, MOST);
      var i2: bytes :| IsRetagged(e2, i2, tag, typ) && IsBer(t, v2, i2, MOST);
      RetagUntag(i1, r1, tag, typ);
      RetagUntag(i2, r2, tag, typ);
      NoAmbiguity(t, v1, i1, r1, v2, i2, r2);
    case ExpOpt(_, mtag) =>
      var i1: bytes :| IsWrapped(e1, mtag, CONTEXT_SPECIFIC, i1, MOST) && IsBer(t, v1, i1, MOST);
      var i2: bytes :| IsWrapped(e2, mtag, CONTEXT_SPECIFIC, i2, MOST) && IsBer(t, v2, i2, MOST);
      var indefinite := SameWrap(mtag, CONTEXT_SPECIFIC, i1, e1, r1, i2, e2, r2);
      NoAmbiguity(t, v1, i1, Tail(indefinite, r1), v2, i2, Tail(indefinite, r2));
      SameEnds(indefinite, e1, r1, e2, r2);
    case _ => NoAmbiguity(t, v1, e1, r1, v2, e2, r2);
  }
}
