/** What the I2D macros write is the definite form of the canonical object, and
    two objects are written alike exactly when they have the same canonical
    form. */
module Canonical {
  import opened Octets
  import opened Header
  import opened Schema
  import opened Encode
  import opened Decode
  import opened Grammar
  import opened RoundTrip

  // ------------------------------------------------ the order of a SET OF

  /** The order of section 11.6 of X.690: at the first octet where the two differ
      the lesser one is lower, and what is the beginning of the other is lesser. */
  ghost predicate Precedes(a: bytes, b: bytes) {
    a <= b || exists k :: 0 <= k < |a| && k < |b| && a[..k] == b[..k] && a[k] < b[k]
  }

  ghost predicate Ascending(es: seq<bytes>) {
    forall i, j | 0 <= i < j < |es| :: Precedes(es[i], es[j])
  }

  /** der_cmp is that order. */
  lemma {:induction false} BeforeIsPrecedes(a: bytes, b: bytes)
    ensures Before(a, b) <==> Precedes(a, b)
  {
    if a != [] && b != [] {
      if a[0] == b[0] {
        BeforeIsPrecedes(a[1..], b[1..]);
        SameFirst(a, b);
      } else {
        FirstDiffers(a, b);
      }
    }
  }

  lemma FirstDiffers(a: bytes, b: bytes)
    requires a != [] && b != [] && a[0] != b[0]
    ensures Precedes(a, b) <==> a[0] < b[0]
  {
    assert a[..0] == b[..0];
    if k :| 0 <= k < |a| && k < |b| && a[..k] == b[..k] && a[k] < b[k] {
      if k > 0 {
        SamePrefix(a, b, k);
      }
    }
  }

  lemma SamePrefix(a: bytes, b: bytes, k: nat)
    requires 0 < k <= |a| && k <= |b| && a[..k] == b[..k]
    ensures a[0] == b[0]
  {
    assert a[..k][0] == b[..k][0];
  }

  lemma SameFirst(a: bytes, b: bytes)
    requires a != [] && b != [] && a[0] == b[0]
    ensures Precedes(a, b) <==> Precedes(a[1..], b[1..])
  {
    assert a == [a[0]] + a[1..] && b == [b[0]] + b[1..];
    assert a <= b <==> a[1..] <= b[1..];
    if k :| 0 <= k < |a| && k < |b| && a[..k] == b[..k] && a[k] < b[k] {
      assert a[1..][..k - 1] == a[..k][1..] && b[1..][..k - 1] == b[..k][1..];
      assert a[1..][k - 1] < b[1..][k - 1];
    }
    if k :| 0 <= k < |a| - 1 && k < |b| - 1 && a[1..][..k] == b[1..][..k] && a[1..][k] < b[1..][k] {
      assert a[..k + 1] == [a[0]] + a[1..][..k] && b[..k + 1] == [b[0]] + b[1..][..k];
      assert a[k + 1] < b[k + 1];
    }
  }

  /** Each before the next is as good as each before all the later ones. */
  lemma {:induction false} OrderedIsAscending(es: seq<bytes>)
    ensures Ordered(es) <==> Ascending(es)
  {
    hide Before, Precedes;
    if |es| > 1 {
      OrderedIsAscending(es[1..]);
      BeforeIsPrecedes(es[0], es[1]);
      if Ascending(es) {
        forall i, j | 0 <= i < j < |es[1..]| ensures Precedes(es[1..][i], es[1..][j]) {
          assert Precedes(es[i + 1], es[j + 1]);
        }
      }
      if Ordered(es) {
        forall i, j | 0 <= i < j < |es| ensures Precedes(es[i], es[j]) {
          if i == 0 {
            FirstIsLeast(es, j);
            BeforeIsPrecedes(es[0], es[j]);
          } else {
            assert Precedes(es[1..][i - 1], es[1..][j - 1]);
          }
        }
      }
    }
  }

  predicate Ordered(es: seq<bytes>) {
    |es| < 2 || (Before(es[0], es[1]) && Ordered(es[1..]))
  }

  lemma {:induction false} BeforeTotal(a: bytes, b: bytes)
    ensures Before(a, b) || Before(b, a)
    ensures Before(a, b) && Before(b, a) ==> a == b
  {
    if a != [] && b != [] && a[0] == b[0] {
      BeforeTotal(a[1..], b[1..]);
      assert a == [a[0]] + a[1..] && b == [b[0]] + b[1..];
    }
  }

  lemma {:induction false} BeforeTransitive(a: bytes, b: bytes, c: bytes)
    requires Before(a, b) && Before(b, c)
    ensures Before(a, c)
  {
    if a != [] && b != [] && c != [] && a[0] == b[0] == c[0] {
      BeforeTransitive(a[1..], b[1..], c[1..]);
    }
  }

  lemma {:induction false} InsertOrdered(x: bytes, ys: seq<bytes>)
    requires Ordered(ys)
    ensures Ordered(Insert(x, ys))
    ensures multiset(Insert(x, ys)) == multiset{x} + multiset(ys)
  {
    if ys != [] {
      assert ys == [ys[0]] + ys[1..];
      if !Before(x, ys[0]) {
        BeforeTotal(x, ys[0]);
        InsertOrdered(x, ys[1..]);
        assert ([ys[0]] + Insert(x, ys[1..]))[1..] == Insert(x, ys[1..]);
      } else {
        assert ([x] + ys)[1..] == ys;
      }
    }
  }

  /** The encodings of a SET OF come out in ascending order, each as often as it
      went in (section 11.6 of X.690). */
  lemma {:induction false} SortOrders(es: seq<bytes>)
    ensures Ascending(SortOctets(es)) && multiset(SortOctets(es)) == multiset(es)
  {
    hide Ascending;
    SortIsOrdered(es);
    OrderedIsAscending(SortOctets(es));
  }

  lemma {:induction false} SortIsOrdered(es: seq<bytes>)
    ensures Ordered(SortOctets(es)) && multiset(SortOctets(es)) == multiset(es)
  {
    if es != [] {
      SortIsOrdered(es[1..]);
      InsertOrdered(es[0], SortOctets(es[1..]));
      assert es == [es[0]] + es[1..];
    }
  }

  lemma {:induction false} FirstIsLeast(es: seq<bytes>, i: nat)
    requires Ordered(es) && i < |es|
    ensures Before(es[0], es[i])
  {
    if i == 0 {
      BeforeTotal(es[0], es[0]);
    } else {
      FirstIsLeast(es[1..], i - 1);
      BeforeTransitive(es[0], es[1], es[i]);
    }
  }

  /** There is only one ascending arrangement, so every sorting routine that
      compares with der_cmp writes the same octets. */
  lemma OneOrder(es: seq<bytes>, fs: seq<bytes>)
    requires Ascending(es) && Ascending(fs) && multiset(es) == multiset(fs)
    ensures es == fs
  {
    hide Ascending, Ordered;
    OrderedIsAscending(es);
    OrderedIsAscending(fs);
    OneOrdered(es, fs);
  }

  lemma {:induction false} OneOrdered(es: seq<bytes>, fs: seq<bytes>)
    requires Ordered(es) && Ordered(fs) && multiset(es) == multiset(fs)
    ensures es == fs
  {
    assert |es| == |multiset(es)| == |multiset(fs)| == |fs|;
    if es != [] {
      Uncons(es);
      Uncons(fs);
      LeastIsFirst(es, fs[0]);
      LeastIsFirst(fs, es[0]);
      BeforeTotal(es[0], fs[0]);
      OneOrdered(es[1..], fs[1..]);
    }
  }

  lemma LeastIsFirst(es: seq<bytes>, x: bytes)
    requires Ordered(es) && es != [] && x in multiset(es)
    ensures Before(es[0], x)
  {
    var j :| 0 <= j < |es| && es[j] == x;
    FirstIsLeast(es, j);
  }

  lemma Uncons(es: seq<bytes>)
    requires es != []
    ensures es == [es[0]] + es[1..] && es[0] in multiset(es) && multiset(es[1..]) == multiset(es) - multiset{es[0]}
  {
    assert es == [es[0]] + es[1..];
  }

  lemma {:induction false} SortKeepsOrdered(es: seq<bytes>)
    requires Ascending(es)
    ensures SortOctets(es) == es
  {
    SortOrders(es);
    OneOrder(SortOctets(es), es);
  }

  lemma {:induction false} InsertMatches(e: Type, x: Value, ys: seq<Value>)
    requires Fits(e, x) && forall y <- ys :: Fits(e, y)
    ensures EncEach(e, InsertValue(e, x, ys)) == Insert(Enc(e, x), EncEach(e, ys))
  {
    hide Enc, Fits;
    if ys == [] || Before(Enc(e, x), Enc(e, ys[0])) {
      EachOfCons(e, x, ys);
    } else {
      InsertMatches(e, x, ys[1..]);
      EachOfCons(e, ys[0], InsertValue(e, x, ys[1..]));
    }
  }

  lemma EachOfCons(e: Type, x: Value, ys: seq<Value>)
    requires Fits(e, x) && forall y <- ys :: Fits(e, y)
    ensures EncEach(e, [x] + ys) == [Enc(e, x)] + EncEach(e, ys)
  {
    hide Enc, Fits;
    assert ([x] + ys)[1..] == ys;
  }

  /** Sorting objects by their encodings sorts the encodings. */
  lemma {:induction false} SortMatches(e: Type, xs: seq<Value>)
    requires forall x <- xs :: Fits(e, x)
    ensures EncEach(e, SortValues(e, xs)) == SortOctets(EncEach(e, xs))
  {
    hide Enc, Fits;
    if xs != [] {
      SortMatches(e, xs[1..]);
      InsertMatches(e, xs[0], SortValues(e, xs[1..]));
    }
  }

  /** Sorting leaves objects alone whose encodings are in order already. */
  lemma {:induction false} SortValuesKeepsOrdered(e: Type, xs: seq<Value>)
    requires (forall x <- xs :: Fits(e, x)) && Ordered(EncEach(e, xs))
    ensures SortValues(e, xs) == xs
  {
    hide Enc, Fits;
    if xs != [] {
      assert EncEach(e, xs)[1..] == EncEach(e, xs[1..]);
      SortValuesKeepsOrdered(e, xs[1..]);
      assert [xs[0]] + xs[1..] == xs;
    }
  }

  lemma {:induction false} SortKeepsSize(es: seq<bytes>)
    ensures |Flatten(SortOctets(es))| == |Flatten(es)|
  {
    if es != [] {
      SortKeepsSize(es[1..]);
      InsertAddsSize(es[0], SortOctets(es[1..]));
    }
  }

  lemma {:induction false} InsertAddsSize(x: bytes, ys: seq<bytes>)
    ensures |Flatten(Insert(x, ys))| == |x| + |Flatten(ys)|
  {
    if ys == [] || Before(x, ys[0]) {
      assert ([x] + ys)[1..] == ys;
    } else {
      InsertAddsSize(x, ys[1..]);
      assert ([ys[0]] + Insert(x, ys[1..]))[1..] == Insert(x, ys[1..]);
    }
  }

  // --------------------------------------------------------- canonical form

  /** No optional list is present but empty, and every SET OF is in the order of
      its encodings. */
  ghost predicate IsCanonical(t: Type, v: Value)
    requires Fits(t, v)
    decreases t, 1
  {
    match t
    case Leaf(_) => true
    case Record(fs) => AreCanonical(fs, v.fields)
    case List(e, isSet, _, _) =>
      && (forall x <- v.items :: IsCanonical(e, x))
      && (isSet ==> Ascending(EncEach(e, v.items)))
  }

  ghost predicate AreCanonical(fs: seq<Field>, slots: seq<Slot>)
    requires FitsFields(fs, slots)
    decreases fs, 0
  {
    fs == [] || (IsCanonicalField(fs[0], slots[0]) && AreCanonical(fs[1..], slots[1..]))
  }

  /** An optional list that is present but empty. */
  predicate IsEmptyOptional(f: Field, slot: Slot) {
    (f.ListOpt? || f.ExpOpt?) && slot == Some(Items([]))
  }

  ghost predicate IsCanonicalField(f: Field, slot: Slot)
    requires FitsField(f, slot)
    decreases f, 1
  {
    slot.Some? ==> !IsEmptyOptional(f, slot) && IsCanonical(f.t, slot.value)
  }

  /** The canonical form is canonical and is written alike. */
  lemma {:induction false} CanonCorrect(t: Type, v: Value)
    requires Fits(t, v)
    ensures IsCanonical(t, Canon(t, v)) && Enc(t, Canon(t, v)) == Enc(t, v)
    decreases t, 1
  {
    match t
    case Leaf(_) =>
    case Record(fs) => CanonFieldsCorrect(fs, v.fields);
    case List(e, isSet, _, _) =>
      CanonEachCorrect(e, v.items);
      CanonListCorrect(t, v);
  }

  lemma {:induction false} CanonEachCorrect(e: Type, xs: seq<Value>)
    requires forall x <- xs :: Fits(e, x)
    ensures forall x <- CanonEach(e, xs) :: IsCanonical(e, x)
    ensures EncEach(e, CanonEach(e, xs)) == EncEach(e, xs)
    decreases e, 2, |xs|
  {
    if xs != [] {
      CanonCorrect(e, xs[0]);
      CanonEachCorrect(e, xs[1..]);
      EachOfCons(e, Canon(e, xs[0]), CanonEach(e, xs[1..]));
    }
  }

  lemma CanonListCorrect(t: Type, v: Value)
    requires t.List? && Fits(t, v)
    requires forall x <- CanonEach(t.elem, v.items) :: IsCanonical(t.elem, x)
    requires EncEach(t.elem, CanonEach(t.elem, v.items)) == EncEach(t.elem, v.items)
    ensures IsCanonical(t, Canon(t, v)) && Enc(t, Canon(t, v)) == Enc(t, v)
  {
    var e, xs := t.elem, CanonEach(t.elem, v.items);
    if t.isSet {
      SortMatches(e, xs);
      SortOrders(EncEach(e, xs));
      SortKeepsOrdered(SortOctets(EncEach(e, xs)));
      SameElements(e, xs, SortValues(e, xs));
    }
  }

  lemma SameElements(e: Type, xs: seq<Value>, ys: seq<Value>)
    requires multiset(xs) == multiset(ys)
    requires (forall x <- xs :: Fits(e, x)) && (forall x <- xs :: IsCanonical(e, x)) && (forall y <- ys :: Fits(e, y))
    ensures forall y <- ys :: IsCanonical(e, y)
  {
    forall y <- ys ensures IsCanonical(e, y) {
      assert y in multiset(xs);
    }
  }

  lemma {:induction false} CanonFieldsCorrect(fs: seq<Field>, slots: seq<Slot>)
    requires FitsFields(fs, slots)
    ensures AreCanonical(fs, CanonFields(fs, slots))
    ensures EncFields(fs, CanonFields(fs, slots)) == EncFields(fs, slots)
    decreases fs, 0
  {
    if fs != [] {
      CanonFieldCorrect(fs[0], slots[0]);
      CanonFieldsCorrect(fs[1..], slots[1..]);
      assert CanonFields(fs, slots)[1..] == CanonFields(fs[1..], slots[1..]);
    }
  }

  lemma {:induction false} CanonFieldCorrect(f: Field, slot: Slot)
    requires FitsField(f, slot)
    ensures IsCanonicalField(f, CanonField(f, slot))
    ensures EncField(f, CanonField(f, slot)) == EncField(f, slot)
    decreases f, 1
  {
    if Written(f, slot) {
      CanonCorrect(f.t, slot.value);
      SameEmptiness(f.t, slot.value);
    }
  }

  lemma SameEmptiness(t: Type, v: Value)
    requires Fits(t, v)
    ensures Canon(t, v).Items? == v.Items?
    ensures v.Items? ==> |Canon(t, v).items| == |v.items|
  {
    if t.List? {
      var xs := CanonEach(t.elem, v.items);
      var ys := SortValues(t.elem, xs);
      assert |ys| == |multiset(ys)| == |multiset(xs)| == |xs|;
    }
  }

  /** The canonical form of a record has each field in its place, and NULL for
      just those that are NULL or an empty optional list. */
  lemma {:induction false} CanonOfRecord(fs: seq<Field>, slots: seq<Slot>, i: nat)
    requires FitsFields(fs, slots) && i < |fs|
    ensures |CanonFields(fs, slots)| == |slots| == |fs| && FitsField(fs[i], slots[i])
    ensures var c := CanonFields(fs, slots)[i];
            if slots[i].None? || IsEmptyOptional(fs[i], slots[i]) then c == None
            else c == Some(Canon(fs[i].t, slots[i].value))
    decreases fs
  {
    hide Canon;
    if i > 0 {
      CanonOfRecord(fs[1..], slots[1..], i - 1);
      assert fs[1..][i - 1] == fs[i] && slots[1..][i - 1] == slots[i];
    } else if |fs| > 1 {
      CanonOfRecord(fs[1..], slots[1..], 0);
    }
  }

  /** That of a list has the canonical form of each element as often as it was
      there, and in their places unless it is a SET OF. */
  lemma CanonOfList(t: Type, v: Value)
    requires t.List? && Fits(t, v)
    ensures var xs := CanonEach(t.elem, v.items);
            && Canon(t, v).Items? && multiset(Canon(t, v).items) == multiset(xs) && |xs| == |v.items|
            && (!t.isSet ==> Canon(t, v).items == xs)
            && forall i | 0 <= i < |xs| :: xs[i] == Canon(t.elem, v.items[i])
  {
  }

  /** A canonical object is its own canonical form. */
  lemma {:induction false} CanonFixed(t: Type, v: Value)
    requires Fits(t, v) && IsCanonical(t, v)
    ensures Canon(t, v) == v
    decreases t, 1
  {
    match t
    case Leaf(_) =>
    case Record(fs) => CanonFieldsFixed(fs, v.fields);
    case List(e, isSet, _, _) =>
      forall i | 0 <= i < |v.items| ensures Canon(e, v.items[i]) == v.items[i] {
        CanonFixed(e, v.items[i]);
      }
      assert CanonEach(e, v.items) == v.items;
      if isSet {
        OrderedIsAscending(EncEach(e, v.items));
        SortValuesKeepsOrdered(e, v.items);
      }
  }

  lemma {:induction false} CanonFieldsFixed(fs: seq<Field>, slots: seq<Slot>)
    requires FitsFields(fs, slots) && AreCanonical(fs, slots)
    ensures CanonFields(fs, slots) == slots
    decreases fs, 0
  {
    if fs != [] {
      if slots[0].Some? {
        CanonFixedField(fs[0], slots[0]);
      }
      CanonFieldsFixed(fs[1..], slots[1..]);
    }
  }

  lemma {:induction false} CanonFixedField(f: Field, slot: Slot)
    requires FitsField(f, slot) && slot.Some? && IsCanonicalField(f, slot)
    ensures CanonField(f, slot) == slot
    decreases f, 1
  {
    CanonFixed(f.t, slot.value);
  }

  lemma {:induction false} CanonComplete(t: Type, v: Value)
    requires Fits(t, v) && Complete(t, v)
    ensures Complete(t, Canon(t, v))
    decreases t, 1
  {
    match t
    case Leaf(_) =>
    case Record(fs) => CanonFieldsComplete(fs, v.fields);
    case List(e, _, _, _) =>
      var xs := CanonEach(e, v.items);
      forall i | 0 <= i < |xs| ensures Complete(e, xs[i]) {
        CanonComplete(e, v.items[i]);
      }
      forall x <- Canon(t, v).items ensures Complete(e, x) {
        assert x in multiset(xs);
      }
  }

  lemma {:induction false} CanonFieldsComplete(fs: seq<Field>, slots: seq<Slot>)
    requires FitsFields(fs, slots) && CompleteFields(fs, slots)
    ensures CompleteFields(fs, CanonFields(fs, slots))
    decreases fs, 0
  {
    if fs != [] {
      CanonFieldComplete(fs[0], slots[0]);
      CanonFieldsComplete(fs[1..], slots[1..]);
      assert CanonFields(fs, slots)[1..] == CanonFields(fs[1..], slots[1..]);
    }
  }

  lemma {:induction false} CanonFieldComplete(f: Field, slot: Slot)
    requires FitsField(f, slot) && CompleteField(f, slot)
    ensures CompleteField(f, CanonField(f, slot))
    decreases f, 1
  {
    if slot.Some? {
      CanonComplete(f.t, slot.value);
    }
  }

  // ------------------------------------ the macros write basic encodings

  /** Every length definite and short, as the len and put macros write it. */
  const DEFINITE: Form := _ => Shortest

  lemma {:induction false} EncIsBer(t: Type, v: Value, at: seq<nat>)
    requires Fits(t, v) && IsCanonical(t, v)
    ensures Enc(t, v) == Ber(t, v, DEFINITE, at)
    decreases t, 1
  {
    match t
    case Leaf(_) =>
    case Record(fs) => EncFieldsAreBer(fs, v.fields, at);
    case List(e, isSet, _, _) =>
      EncItemsAreBer(e, v.items, at);
      if isSet {
        SortKeepsOrdered(EncEach(e, v.items));
      }
  }

  lemma {:induction false} EncItemsAreBer(e: Type, xs: seq<Value>, at: seq<nat>)
    requires (forall x <- xs :: Fits(e, x)) && (forall x <- xs :: IsCanonical(e, x))
    ensures Flatten(EncEach(e, xs)) == BerItems(e, xs, DEFINITE, at)
    decreases e, 2, |xs|
  {
    if xs != [] {
      EncIsBer(e, xs[0], at + [|xs|]);
      EncItemsAreBer(e, xs[1..], at);
      assert EncEach(e, xs)[1..] == EncEach(e, xs[1..]);
    }
  }

  lemma {:induction false} EncFieldsAreBer(fs: seq<Field>, slots: seq<Slot>, at: seq<nat>)
    requires FitsFields(fs, slots) && AreCanonical(fs, slots)
    ensures EncFields(fs, slots) == BerFields(fs, slots, DEFINITE, at)
    decreases fs, 0
  {
    if fs != [] {
      EncFieldIsBer(fs[0], slots[0], at + [|fs|]);
      EncFieldsAreBer(fs[1..], slots[1..], at);
    }
  }

  lemma {:induction false} EncFieldIsBer(f: Field, slot: Slot, at: seq<nat>)
    requires FitsField(f, slot) && IsCanonicalField(f, slot)
    ensures EncField(f, slot) == BerField(f, slot, DEFINITE, at)
    decreases f, 1
  {
    if slot.Some? {
      EncIsBer(f.t, slot.value, at + [0]);
    }
  }

  /** What the macros write for a canonical object is an encoding of that very
      object; what they write for any other is one of its canonical form. */
  lemma WrittenIsBer(t: Type, v: Value)
    requires WellTagged(t) && Fits(t, v) && Complete(t, v)
    ensures IsCanonical(t, v) ==> IsBer(t, v, Enc(t, v), ROOM)
    ensures IsBer(t, Canon(t, v), Enc(t, v), ROOM)
  {
    hide IsBer, Enc, Canon, IsCanonical, WellTagged, Complete;
    CanonCorrect(t, v);
    CanonComplete(t, v);
    if IsCanonical(t, v) {
      CanonicalIsBer(t, v);
    }
    CanonicalIsBer(t, Canon(t, v));
  }

  lemma CanonicalIsBer(t: Type, v: Value)
    requires WellTagged(t) && Fits(t, v) && Complete(t, v) && IsCanonical(t, v)
    ensures IsBer(t, v, Enc(t, v), ROOM)
  {
    hide IsBer, Enc, Ber, IsCanonical, WellTagged, Complete, FormsWithin;
    EncIsBer(t, v, []);
    EveryFormWithin(t, v, DEFINITE, [], ROOM);
    BerIsBer(t, v, DEFINITE, [], ROOM);
  }
}
