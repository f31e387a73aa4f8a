/** What the D2I macros read, as a function of the window they are given. */
module Decode {
  import opened Octets
  import opened Header
  import opened Schema

  /** The outcome of a d2i function called with a slot: on failure `slot` is
      what the caller's pointer holds afterwards; on success `v` is the object
      and `n` the number of octets read. */
  datatype Read = Fail(slot: Slot) | Done(v: Value, n: nat)

  /** The outcome of one get macro on a field of the object being filled. */
  datatype Step = Stop(slot: Slot) | Went(slot: Slot, n: nat)

  datatype Fields = FieldsStop(slots: seq<Slot>) | FieldsRead(slots: seq<Slot>, n: nat)

  datatype Elements = ElementsStop | ElementsRead(items: seq<Value>, n: nat)

  /** M_ASN1_D2I_vars: the fields of the caller's object, or of a new one with
      every field NULL. */
  function Target(fs: seq<Field>, slot: Slot): (slots: seq<Slot>)
    ensures |slots| == |fs|
  {
    if slot.Some? && slot.value.Struct? && |slot.value.fields| == |fs| then slot.value.fields
    else seq(|fs|, _ => None)
  }

  /** The octets after the header: the definite contents, or all that is left. */
  function Content(h: Head, w: bytes): (rest: bytes)
    requires h.Head? && h.size + h.len <= |w|
    ensures h.size + |rest| <= |w|
  {
    if h.indefinite then w[h.size..] else w[h.size..h.size + h.len]
  }

  /** The window given to the d2i inside an EXPLICIT tag: the definite contents,
      or all that is left but two octets held back for the end-of-contents. */
  function Inside(h: Head, w: bytes): (rest: bytes)
    requires h.Head? && h.size + h.len <= |w|
    ensures h.size + |rest| + (if h.indefinite && rest != [] then 2 else 0) <= |w|
  {
    if !h.indefinite then w[h.size..h.size + h.len]
    else if |w| - 2 < h.size then []
    else w[h.size..|w| - 2]
  }

  /** asn1_const_Finish after `n` octets of content: nothing left over, or the
      end-of-contents octets; the number of octets up to the end. */
  function Finish(indefinite: bool, rest: bytes, n: nat): (end: Option<nat>)
    requires n <= |rest|
    ensures end.Some? ==> end.value <= |rest|
  {
    if indefinite then if AtEndOfContents(rest[n..]) then Some(n + 2) else None
    else if n == |rest| then Some(n) else None
  }

  /** A d2i function of type `t`, with `slot` the object the caller passed in
      and `w` the window of `length` octets at `*pp`. */
  function Dec(t: Type, slot: Slot, w: bytes): (r: Read)
    ensures r.Done? ==> 0 < r.n <= |w|
    decreases t, 1
  {
    match t
    case Leaf(c) =>
      var d := c.dec(w);
      assert ReadsOne(c, w);
      if d.Some? then Done(Atom(d.value.0), d.value.1) else Fail(slot)
    case Record(fs) =>
      var h := GetObject(w);
      if h.Bad? || h.tag != SEQUENCE || h.cls != UNIVERSAL || !h.constructed then Fail(slot)
      else
        (match DecRecord(fs, Target(fs, slot), h.indefinite, Content(h, w))
         case FieldsStop(slots) => Fail(if slot.Some? then Some(Struct(slots)) else None)
         case FieldsRead(slots, n) => Done(Struct(slots), h.size + n))
    case List(e, _, tag, cls) =>
      var h := GetObject(w);
      if h.Bad? || h.tag != tag || h.cls != cls then Fail(slot)
      else
        match DecItems(e, h.indefinite, Content(h, w))
        case ElementsStop => Fail(None)
        case ElementsRead(xs, n) => Done(Items(xs), h.size + n)
  }

  /** The contents of a record: its fields and the end check. */
  function DecRecord(fs: seq<Field>, slots: seq<Slot>, indefinite: bool, rest: bytes): (r: Fields)
    requires |fs| == |slots|
    ensures |r.slots| == |fs|
    ensures r.FieldsRead? ==> r.n <= |rest|
    decreases fs, 1
  {
    match DecFields(fs, slots, rest)
    case FieldsStop(ss) => FieldsStop(ss)
    case FieldsRead(ss, n) =>
      match Finish(indefinite, rest, n)
      case None => FieldsStop(ss)
      case Some(end) => FieldsRead(ss, end)
  }

  /** The elements of a list up to the end of its contents. */
  function DecItems(e: Type, indefinite: bool, rest: bytes): (r: Elements)
    ensures r.ElementsRead? ==> r.n <= |rest|
    decreases e, 2, |rest|
  {
    if rest == [] then if indefinite then ElementsStop else ElementsRead([], 0)
    else if AtEndOfContents(rest) then if indefinite then ElementsRead([], 2) else ElementsStop
    else
      match Dec(e, None, rest)
      case Fail(_) => ElementsStop
      case Done(x, n) =>
        match DecItems(e, indefinite, rest[n..])
        case ElementsStop => ElementsStop
        case ElementsRead(xs, m) => ElementsRead([x] + xs, n + m)
  }

  /** The get macros of a record in turn; `rest` is the content not yet read. */
  function DecFields(fs: seq<Field>, slots: seq<Slot>, rest: bytes): (r: Fields)
    requires |fs| == |slots|
    ensures |r.slots| == |fs|
    ensures r.FieldsRead? ==> r.n <= |rest|
    decreases fs, 0
  {
    if fs == [] then FieldsRead([], 0)
    else
      match DecField(fs[0], slots[0], rest)
      case Stop(s) => FieldsStop([s] + slots[1..])
      case Went(s, n) =>
        match DecFields(fs[1..], slots[1..], rest[n..])
        case FieldsStop(ss) => FieldsStop([s] + ss)
        case FieldsRead(ss, m) => FieldsRead([s] + ss, n + m)
  }

  /** One get macro: a field whose guard does not take the next octet is left
      as it was. */
  function DecField(f: Field, slot: Slot, rest: bytes): (r: Step)
    ensures r.Went? ==> r.n <= |rest|
    decreases f, 2
  {
    if Enters(f, rest) then Enter(f, slot, rest) else Went(slot, 0)
  }

  function AsStep(r: Read): Step {
    match r
    case Fail(s) => Stop(s)
    case Done(v, n) => Went(Some(v), n)
  }

  /** M_ASN1_D2I_get_imp: the octet the inner d2i finds at its first position. */
  function Untag(rest: bytes, typ: LowTag): (r: bytes)
    requires rest != []
    ensures |r| == |rest|
  {
    rest[0 := ConstructedBit(rest[0]) + typ]
  }

  function Enter(f: Field, slot: Slot, rest: bytes): (r: Step)
    requires f.Plain? || rest != []
    ensures r.Went? ==> r.n <= |rest|
    decreases f, 1
  {
    match f
    case Plain(t) => AsStep(Dec(t, slot, rest))
    case Opt(t, _) => AsStep(Dec(t, slot, rest))
    case ListOpt(t) => AsStep(Dec(t, slot, rest))
    case ImpOpt(t, _, typ) => AsStep(Dec(t, slot, Untag(rest, typ)))
    case ExpOpt(t, _) =>
      var h := GetObject(rest);
      if h.Bad? then Stop(slot)
      else Leave(h, rest, Dec(t, slot, Inside(h, rest)))
  }

  /** M_ASN1_D2I_get_EXP_opt after the inner d2i has returned `r`. */
  function Leave(h: Head, w: bytes, r: Read): (step: Step)
    requires h.Head? && (r.Done? ==> h.size + r.n <= |w|)
    ensures step.Went? ==> r.Done? && step.n <= |w|
    ensures step.slot == AsStep(r).slot
  {
    match r
    case Fail(s) => Stop(s)
    case Done(v, n) =>
      if !h.indefinite then Went(Some(v), h.size + n)
      else if AtEndOfContents(w[h.size + n..]) then Went(Some(v), h.size + n + 2)
      else Stop(Some(v))
  }

  /** The window that the d2i of a field is given, once its guard has taken the
      field; nothing when the header of an EXPLICIT tag is not read. */
  function Seen(f: Field, rest: bytes): bytes
    requires f.Plain? || rest != []
  {
    match f
    case ImpOpt(_, _, typ) => Untag(rest, typ)
    case ExpOpt(_, _) => if GetObject(rest).Head? then Inside(GetObject(rest), rest) else []
    case _ => rest
  }

  lemma NoOctets(t: Type, slot: Slot)
    ensures Dec(t, slot, []) == Fail(slot)
  {
    if t.Leaf? {
      assert ReadsOne(t.codec, []);
    }
  }

  /** Every get macro calls its d2i on that window; only behind an EXPLICIT tag
      is there something left to do. */
  lemma EnterStep(f: Field, slot: Slot, rest: bytes)
    requires f.Plain? || rest != []
    ensures var r := Dec(f.t, slot, Seen(f, rest));
            var step := Enter(f, slot, rest);
            && step.slot == AsStep(r).slot
            && (!f.ExpOpt? ==> step == AsStep(r))
            && (f.ExpOpt? && r.Done? ==> GetObject(rest).Head? && step == Leave(GetObject(rest), rest, r))
            && (step.Went? ==> r.Done?)
  {
    hide Dec, GetObject, Inside, Untag;
    NoOctets(f.t, slot);
  }
}
