/** The D2I macros as code: the cursor they keep in an ASN1_const_CTX, the
    input octet they overwrite and put back, and the objects they allocate and
    free. */
module Decoder {
  import opened Octets
  import opened Header
  import opened HeaderCode
  import opened Schema
  import opened Decode
  import opened Theorems
  import opened Straying
  import opened Objects

  // ---------------------------------------------------- windows of the input

  lemma ContentWindow(s: bytes, q: nat, length: nat, h: Head)
    requires q + length <= |s| && h.Head? && h.size + h.len <= length
    ensures Content(h, Window(s, q, length))
         == Window(s, q + h.size, if h.indefinite then length - h.size else h.len)
  {
  }

  lemma InsideWindow(s: bytes, q: nat, length: nat, h: Head)
    requires q + length <= |s| && h.Head? && h.size + h.len <= length
    ensures Inside(h, Window(s, q, length))
         == Window(s, q + h.size, if h.indefinite then length - h.size - 2 else h.len)
  {
    if !h.indefinite {
      SliceTwice(s, q, q + length, h.size, h.size + h.len);
    } else if h.size < length - 2 {
      SliceTwice(s, q, q + length, h.size, length - 2);
    }
  }

  lemma SliceTwice(s: bytes, a: nat, b: nat, c: nat, d: nat)
    requires a <= b <= |s| && c <= d <= b - a
    ensures s[a..b][c..d] == s[a + c..a + d]
  {
    var left, right := s[a..b][c..d], s[a + c..a + d];
    assert forall i | 0 <= i < d - c :: left[i] == right[i];
  }

  lemma LaterWindow(s: bytes, q: nat, length: nat, n: nat)
    requires q + length <= |s| && n <= length
    ensures Window(s, q, length)[n..] == Window(s, q + n, length - n)
  {
  }

  /** Are two zero octets next, in the `len` octets at p? */
  method CheckEnd(buf: array<byte>, p: nat, len: int) returns (end: bool)
    requires len > 0 ==> p + len <= buf.Length
    ensures end == AtEndOfContents(Window(buf[..], p, len))
  {
    end := len >= 2 && buf[p] == 0 && buf[p + 1] == 0;
  }

  // ------------------------------------------------------------- the cursor

  /** ASN1_const_CTX: `slen` octets are left to read at `p`. */
  class ConstCtx {
    const buf: array<byte>
    const heap: Heap
    var p: nat
    var q: nat
    var slen: int
    var inf: byte
    var eos: bool
    var tag: int
    var xclass: Class

    /** M_ASN1_D2I_vars and M_ASN1_D2I_Init */
    constructor (buf: array<byte>, pp: nat, heap: Heap)
      ensures this.buf == buf && this.heap == heap && p == pp && q == pp && !eos
    {
      this.buf, this.heap := buf, heap;
      p, q, slen, inf, eos, tag, xclass := pp, pp, 0, 0, false, 0, UNIVERSAL;
    }

    /** What is left to read is inside the buffer. */
    ghost predicate Valid()
      reads this, buf
    {
      0 <= slen && p + slen <= buf.Length
    }

    /** The same, measured from q. */
    ghost predicate WasValid()
      reads this, buf
    {
      0 <= slen && q + slen <= buf.Length
    }

    ghost function Rest(): bytes
      requires Valid()
      reads this, buf
    {
      Window(buf[..], p, slen)
    }

    /** asn1_GetSequence: the header of a SEQUENCE in the `length` octets at p. */
    method GetSequence(length: int) returns (ok: bool)
      requires p <= buf.Length && p + length <= buf.Length
      modifies this
      ensures var w := Window(buf[..], old(p), length);
              var h := GetObject(w);
              && ok == (h.Head? && h.tag == SEQUENCE && h.cls == UNIVERSAL && h.constructed)
              && (ok ==> Valid() && !eos && (inf == CONSTRUCTED + 1) == h.indefinite && (inf % 2 == 1) == h.indefinite
                         && p == old(p) + h.size && Rest() == Content(h, w))
    {
      hide GetObject, GetHeader, Content, Window;
      q := p;
      ghost var h := GetObject(Window(buf[..], p, length));
      if h.Head? {
        ContentWindow(buf[..], p, length, h);
      }
      var behind;
      inf, p, slen, tag, xclass, behind := ReadHeader(buf, p, length);
      if inf >= BAD || tag != SEQUENCE || xclass != UNIVERSAL || inf < CONSTRUCTED {
        return false;
      }
      if inf == CONSTRUCTED + 1 {
        slen := length - (p - q);
      }
      eos := false;
      ok := true;
    }

    /** ASN1_const_check_infinite_end on `len` octets at p. */
    method CheckInfiniteEnd(len: int) returns (ok: bool)
      requires len > 0 ==> p + len <= buf.Length
      modifies `p
      ensures ok == AtEndOfContents(Window(buf[..], old(p), len))
      ensures p == old(p) + if ok then 2 else 0
    {
      ok := CheckEnd(buf, p, len);
      if ok {
        p := p + 2;
      }
    }

    /** M_ASN1_D2I_end_sequence, the test of loops over a sequence of elements. */
    method EndSequence() returns (end: bool)
      requires Valid()
      modifies `p, `eos
      ensures inf % 2 == 0 ==> end == (slen == 0) && p == old(p) && eos == old(eos)
      ensures inf % 2 == 1 ==> end == eos == AtEndOfContents(old(Rest())) && p == old(p) + if end then 2 else 0
    {
      if inf % 2 == 0 {
        end := slen <= 0;
      } else {
        end := CheckInfiniteEnd(slen);
        eos := end;
      }
    }

    /** asn1_const_Finish: a definite sequence is used up, an indefinite one ends
        here unless M_ASN1_D2I_end_sequence has taken its end already. */
    method Finished() returns (ok: bool)
      requires eos || Valid()
      modifies `p
      ensures ok == if inf == CONSTRUCTED + 1 then eos || AtEndOfContents(old(Rest())) else slen == 0
      ensures p == old(p) + if ok && inf == CONSTRUCTED + 1 && !eos then 2 else 0
    {
      if inf == CONSTRUCTED + 1 {
        ok := true;
        if !eos {
          ok := CheckInfiniteEnd(slen);
        }
      } else {
        ok := slen == 0;
      }
    }

    /** M_ASN1_D2I_get */
    method Get(t: Type, slot: Slot) returns (ok: bool, slot': Slot)
      requires Valid() && FitsSlot(t, slot)
      modifies this, buf, heap
      ensures buf[..] == old(buf[..]) && inf == old(inf) && eos == old(eos)
      ensures var r := Dec(t, slot, old(Rest()));
              && ok == r.Done? && slot' == AsStep(r).slot
              && p == old(p) + (if ok then r.n else 0) && p + slen == old(p + slen)
      ensures heap.live + NodesOfSlot(slot) == old(heap.live) + NodesOfSlot(slot')
      ensures heap.strayed == (old(heap.strayed) || Strays(t, old(Rest())))
      decreases t, 4
    {
      q := p;
      ok, slot', p := D2I(t, slot, buf, p, slen, heap);
      slen := slen - (p - q);
    }

    /** M_ASN1_D2I_get_imp: the octet at p is overwritten for the inner d2i and
        put back, whether it succeeds or not. */
    method GetImplicit(t: Type, typ: LowTag, slot: Slot) returns (ok: bool, slot': Slot)
      requires Valid() && FitsSlot(t, slot) && slen != 0
      modifies this, buf, heap
      ensures buf[..] == old(buf[..]) && inf == old(inf) && eos == old(eos)
      ensures var r := Dec(t, slot, Untag(old(Rest()), typ));
              && ok == r.Done? && slot' == AsStep(r).slot
              && p == old(p) + (if ok then r.n else 0) && p + slen == old(p + slen)
      ensures heap.live + NodesOfSlot(slot) == old(heap.live) + NodesOfSlot(slot')
      ensures heap.strayed == (old(heap.strayed) || Strays(t, Untag(old(Rest()), typ)))
      decreases t, 4
    {
      var tmp := buf[p];
      buf[p] := ConstructedBit(tmp) + typ;
      q := p;
      assert Window(buf[..], p, slen) == Untag(old(Rest()), typ);
      ok, slot', p := D2I(t, slot, buf, p, slen, heap);
      if !ok {
        buf[q] := tmp;
        return;
      }
      slen := slen - (p - q);
      buf[q] := tmp;
    }

    /** M_ASN1_D2I_get_EXP_opt behind its guard */
    method GetExplicit(t: Type, mtag: Tag, slot: Slot) returns (ok: bool, slot': Slot)
      requires Valid() && FitsSlot(t, slot) && slen != 0
      modifies this, buf, heap
      ensures buf[..] == old(buf[..]) && inf == old(inf) && eos == old(eos)
      ensures var r := Enter(ExpOpt(t, mtag), slot, old(Rest()));
              && ok == r.Went? && slot' == r.slot
              && old(p) <= p <= old(p + slen) && (ok ==> p == old(p) + r.n && p + slen == old(p + slen))
      ensures heap.live + NodesOfSlot(slot) == old(heap.live) + NodesOfSlot(slot')
      ensures var w := old(Rest());
              heap.strayed == (old(heap.strayed) || NoRoom(w) || Strays(t, Seen(ExpOpt(t, mtag), w)))
      decreases t, 4
    {
      hide GetObject, GetHeader, Dec, Inside, Window, FitsSlot, Leave, NodesOfSlot;
      slot' := slot;
      q := p;
      ghost var s, h := buf[..], GetObject(Rest());
      var tinf, tlen := OpenExplicit();
      if tinf >= BAD {
        NothingStrays(t);
        return false, slot;
      }
      InsideWindow(s, q, slen, h);
      ok, slot', p := D2I(t, slot, buf, p, tlen, heap);
      ghost var r := Dec(t, slot, Window(s, q + h.size, tlen));
      if ok {
        ok := LeaveExplicit(tinf, h, r);
      }
    }

    /** The start of M_ASN1_D2I_get_EXP_opt: the header, and the length that is
        handed on. */
    method OpenExplicit() returns (tinf: byte, tlen: int)
      requires Valid() && p == q
      modifies `p
      ensures q <= p <= q + slen
      ensures var h := GetObject(old(Rest()));
              if h.Bad? then tinf >= BAD
              else && tinf < BAD && (tinf == CONSTRUCTED + 1) == h.indefinite && p == q + h.size
                   && tlen == if h.indefinite then slen - h.size - 2 else h.len
    {
      hide GetObject, GetHeader, Window;
      var ttag, tclass, behind;
      tinf, p, tlen, ttag, tclass, behind := ReadHeader(buf, p, slen);
      if tinf == CONSTRUCTED + 1 {
        tlen := slen - (p - q) - 2;
      }
    }

    /** The end of M_ASN1_D2I_get_EXP_opt, after the inner d2i. */
    method LeaveExplicit(tinf: byte, ghost h: Head, ghost r: Read) returns (ok: bool)
      requires WasValid() && r.Done? && h.Head? && p == q + h.size + r.n <= q + slen
      requires (tinf == CONSTRUCTED + 1) == h.indefinite
      modifies `p, `slen
      ensures var step := Leave(h, Window(buf[..], q, old(slen)), r);
              && ok == step.Went?
              && old(p) <= p <= q + old(slen) && (ok ==> p == q + step.n && p + slen == q + old(slen))
    {
      hide Window;
      ok := true;
      if tinf == CONSTRUCTED + 1 {
        var tlen := slen - (p - q);
        LaterWindow(buf[..], q, slen, p - q);
        ok := CheckInfiniteEnd(tlen);
      }
      if ok {
        slen := slen - (p - q);
      }
    }

    /** The get macro of a field, with its guard. */
    method GetField(f: Field, slot: Slot) returns (ok: bool, slot': Slot)
      requires Valid() && FitsField(f, slot)
      modifies this, buf, heap
      ensures buf[..] == old(buf[..]) && inf == old(inf) && eos == old(eos)
      ensures var r := DecField(f, slot, old(Rest()));
              && ok == r.Went? && slot' == r.slot
              && old(p) <= p <= old(p + slen) && (ok ==> p == old(p) + r.n && p + slen == old(p + slen))
      ensures heap.live + NodesOfSlot(slot) == old(heap.live) + NodesOfSlot(slot')
      ensures heap.strayed == (old(heap.strayed) || StraysInField(f, old(Rest())))
      decreases f, 2
    {
      hide Dec, Untag, NodesOfSlot, Strays, NoRoom, Leave;
      ok, slot' := true, slot;
      match f
      case Plain(t) =>
        ok, slot' := Get(t, slot);
      case Opt(t, typ) =>
        if slen != 0 && WithoutConstructed(buf[p]) == UNIVERSAL + typ {
          ok, slot' := Get(t, slot);
        }
      case ImpOpt(t, tag', typ) =>
        if slen != 0 && WithoutConstructed(buf[p]) == CONTEXT_SPECIFIC + tag' {
          ok, slot' := GetImplicit(t, typ, slot);
        }
      case ExpOpt(t, mtag) =>
        if slen != 0 && buf[p] == GuardNumber(CONTEXT_SPECIFIC, mtag) {
          ok, slot' := GetExplicit(t, mtag, slot);
        }
      case ListOpt(t) =>
        if slen != 0 && t.List? && buf[p] == GuardNumber(t.cls, t.tag) {
          ok, slot' := Get(t, slot);
        }
    }
  }

  /** A d2i function on the `length` octets at pp, with `a` the object in the
      caller's slot. It returns the slot and the caller's pointer as it leaves
      them. The input is as it was, and every object allocated on the way is in
      the slot or has been freed. */
  method D2I(t: Type, a: Slot, buf: array<byte>, pp: nat, length: int, heap: Heap)
    returns (ok: bool, a': Slot, pp': nat)
    requires pp <= buf.Length && pp + length <= buf.Length
    requires FitsSlot(t, a)
    modifies buf, heap
    ensures buf[..] == old(buf[..])
    ensures var r := Dec(t, a, Window(old(buf[..]), pp, length));
            && ok == r.Done? && a' == AsStep(r).slot && pp' == pp + if ok then r.n else 0
    ensures heap.live + NodesOfSlot(a) == old(heap.live) + NodesOfSlot(a')
    ensures heap.strayed == (old(heap.strayed) || length < 0 || Strays(t, Window(old(buf[..]), pp, length)))
    decreases t, 3
  {
    ok, a', pp' := false, a, pp;
    if length < 0 {
      heap.strayed := true;
    }
    match t
    case Leaf(c) =>
      var d := c.dec(Window(buf[..], pp, length));
      if d.Some? {
        if a.None? {
          heap.Allocate();
        }
        ok, a', pp' := true, Some(Atom(d.value.0)), pp + d.value.1;
      }
    case Record(fs) =>
      ok, a', pp' := D2IRecord(fs, a, buf, pp, length, heap);
    case List(_, _, _, _) =>
      ok, a', pp' := D2IList(t, a, buf, pp, length, heap);
  }

  /** The functions written with the macros: vars, Init, start_sequence, a get
      macro for each field, Finish. */
  method D2IRecord(fs: seq<Field>, a: Slot, buf: array<byte>, pp: nat, length: int, heap: Heap)
    returns (ok: bool, a': Slot, pp': nat)
    requires pp <= buf.Length && pp + length <= buf.Length
    requires FitsSlot(Record(fs), a)
    modifies buf, heap
    ensures buf[..] == old(buf[..])
    ensures var r := Dec(Record(fs), a, Window(old(buf[..]), pp, length));
            && ok == r.Done? && a' == AsStep(r).slot && pp' == pp + if ok then r.n else 0
    ensures heap.live + NodesOfSlot(a) == old(heap.live) + NodesOfSlot(a')
    ensures heap.strayed == (old(heap.strayed) || Strays(Record(fs), Window(old(buf[..]), pp, length)))
    decreases fs, 3
  {
    hide GetObject, GetHeader, DecRecord, Content, Target, NodesOfSlots, FitsSlot;
    ok, a', pp' := false, a, pp;
    TargetIsObject(fs, a);
    var own := a.None?;
    var ret := Target(fs, a);
    if own {
      heap.Allocate();
    }
    var c := new ConstCtx(buf, pp, heap);
    ok := c.GetSequence(length);
    if ok {
      ok, ret := GetRecord(c, fs, ret);
    }
    if ok {
      pp' := c.p;
      a' := Some(Struct(ret));
      return;
    }
    if own {
      heap.Free(Nodes(Struct(ret)));
    } else {
      a' := Some(Struct(ret));
    }
  }

  lemma FinishLater(rest: bytes, n: nat)
    requires n <= |rest|
    ensures forall indefinite ::
              Decode.Finish(indefinite, rest, n) == match Decode.Finish(indefinite, rest[n..], 0)
                                                    case None => None
                                                    case Some(m) => Some(n + m)
  {
  }

  /** The fields being filled are those of the caller's object, or nothing. */
  lemma TargetIsObject(fs: seq<Field>, a: Slot)
    requires FitsSlot(Record(fs), a)
    ensures FitsFields(fs, Target(fs, a))
    ensures a.Some? ==> a == Some(Struct(Target(fs, a)))
    ensures a.None? ==> NodesOfSlots(Target(fs, a)) == 0
  {
    TargetFits(fs, a);
    if a.Some? {
      LengthsAgree(fs, a.value.fields);
    } else {
      NodesOfNothing(Target(fs, a));
    }
  }

  /** The get macros of a record and asn1_const_Finish. */
  method GetRecord(c: ConstCtx, fs: seq<Field>, slots: seq<Slot>) returns (ok: bool, out: seq<Slot>)
    requires c.Valid() && FitsFields(fs, slots) && !c.eos
    modifies c, c.buf, c.heap
    ensures c.buf[..] == old(c.buf[..]) && |fs| == |slots|
    ensures var r := DecRecord(fs, slots, old(c.inf) == CONSTRUCTED + 1, old(c.Rest()));
            ok == r.FieldsRead? && out == r.slots && (ok ==> c.p == old(c.p) + r.n)
    ensures c.heap.live + NodesOfSlots(slots) == old(c.heap.live) + NodesOfSlots(out)
    ensures c.heap.strayed == (old(c.heap.strayed) || StraysInFields(fs, old(c.Rest())))
    decreases fs, 2
  {
    hide DecFields, NodesOfSlots, Window, FitsFields;
    ghost var p0, slen0 := c.p, c.slen;
    ok, out := GetFields(c, fs, slots);
    if ok {
      LaterWindow(c.buf[..], p0, slen0, c.p - p0);
      FinishLater(old(c.Rest()), c.p - p0);
      ok := c.Finished();
    }
  }

  method GetFields(c: ConstCtx, fs: seq<Field>, slots: seq<Slot>) returns (ok: bool, out: seq<Slot>)
    requires c.Valid() && FitsFields(fs, slots)
    modifies c, c.buf, c.heap
    ensures c.buf[..] == old(c.buf[..]) && c.inf == old(c.inf) && c.eos == old(c.eos)
    ensures |fs| == |slots|
    ensures var r := DecFields(fs, slots, old(c.Rest()));
            && ok == r.FieldsRead? && out == r.slots
            && old(c.p) <= c.p <= old(c.p + c.slen)
            && (ok ==> c.p == old(c.p) + r.n && c.p + c.slen == old(c.p + c.slen) && c.Valid())
    ensures c.heap.live + NodesOfSlots(slots) == old(c.heap.live) + NodesOfSlots(out)
    ensures c.heap.strayed == (old(c.heap.strayed) || StraysInFields(fs, old(c.Rest())))
    decreases fs, 1
  {
    hide DecFields, DecField, NodesOfSlots, NodesOfSlot, Window, FitsFields, FitsField, After;
    hide StraysInFields, StraysInField;
    ghost var p0, slen0, w := c.p, c.slen, c.Rest();
    ok, out := true, slots;
    SlotsMatch(fs, slots);
    assert fs[0..] == fs && slots[0..] == slots && w[0..] == w;
    AfterNothing(slots, DecFields(fs, slots, w));
    for i := 0 to |fs|
      invariant c.Valid() && c.buf[..] == old(c.buf[..]) && c.inf == old(c.inf) && c.eos == old(c.eos)
      invariant p0 <= c.p && c.p + c.slen == p0 + slen0
      invariant |out| == |fs| && out[i..] == slots[i..] && FitsFields(fs[i..], slots[i..])
      invariant DecFields(fs, slots, w) == After(out[..i], c.p - p0, DecFields(fs[i..], slots[i..], w[c.p - p0..]))
      invariant c.heap.live + NodesOfSlots(slots) == old(c.heap.live) + NodesOfSlots(out)
      invariant (c.heap.strayed || StraysInFields(fs[i..], w[c.p - p0..]))
             == (old(c.heap.strayed) || StraysInFields(fs, w))
    {
      ghost var n := c.p - p0;
      LaterWindow(c.buf[..], p0, slen0, n);
      NextGet(fs, slots, out, i, w, n);
      NextStray(fs, i, out[i], w, n);
      var slot;
      ok, slot := c.GetField(fs[i], out[i]);
      NodesUpdate(out, i, slot);
      UpdateKeepsRest(out, slots, i, slot);
      out := out[i := slot];
      if !ok {
        return;
      }
    }
    NoneStrays(fs[|fs|..], w[c.p - p0..]);
    NoFields(fs[|fs|..], slots[|fs|..], w[c.p - p0..], out, c.p - p0);
  }

  /** Whether the run strays from field `i` on. */
  lemma NextStray(fs: seq<Field>, i: nat, slot: Slot, w: bytes, n: nat)
    requires i < |fs| && n <= |w|
    ensures var step := DecField(fs[i], slot, w[n..]);
            StraysInFields(fs[i..], w[n..])
            == (StraysInField(fs[i], w[n..]) || (step.Went? && StraysInFields(fs[i + 1..], w[n + step.n..])))
  {
    hide DecField, StraysInField;
    DecFieldIsOver(fs[i], slot, w[n..]);
    assert fs[i..][1..] == fs[i + 1..];
    var step := DecField(fs[i], slot, w[n..]);
    if step.Went? {
      LaterDrop(w, n, step.n);
    }
  }

  lemma NoneStrays(fs: seq<Field>, w: bytes)
    requires fs == []
    ensures !StraysInFields(fs, w)
  {
  }

  /** The result of the fields from some point on, after those already read. */
  ghost function After(done: seq<Slot>, n: nat, r: Fields): Fields {
    match r
    case FieldsStop(ss) => FieldsStop(done + ss)
    case FieldsRead(ss, m) => FieldsRead(done + ss, n + m)
  }

  lemma SlotsMatch(fs: seq<Field>, slots: seq<Slot>)
    requires FitsFields(fs, slots)
    ensures |fs| == |slots|
  {
  }

  lemma NoFields(fs: seq<Field>, slots: seq<Slot>, w: bytes, out: seq<Slot>, n: nat)
    requires fs == [] && slots == []
    ensures After(out[..|out|], n, DecFields(fs, slots, w)) == FieldsRead(out, n)
  {
    assert out[..|out|] == out && out + [] == out;
  }

  lemma AfterNothing(slots: seq<Slot>, r: Fields)
    ensures After(slots[..0], 0, r) == r
  {
    assert slots[..0] == [] && [] + r.slots == r.slots;
  }

  lemma NextGet(fs: seq<Field>, slots: seq<Slot>, out: seq<Slot>, i: nat, w: bytes, n: nat)
    requires i < |fs| == |slots| == |out| && n <= |w| && out[i..] == slots[i..] && FitsFields(fs[i..], slots[i..])
    ensures FitsField(fs[i], out[i]) && FitsFields(fs[i + 1..], slots[i + 1..]) && out[i] == slots[i]
    ensures var step := DecField(fs[i], out[i], w[n..]);
            After(out[..i], n, DecFields(fs[i..], slots[i..], w[n..]))
            == match step
               case Stop(s) => FieldsStop(out[i := s])
               case Went(s, m) => After(out[i := s][..i + 1], n + m, DecFields(fs[i + 1..], slots[i + 1..], w[n + m..]))
  {
    hide DecField, FitsField;
    assert fs[i..][1..] == fs[i + 1..] && slots[i..][1..] == slots[i + 1..];
    assert out[i] == out[i..][0];
    match DecField(fs[i], out[i], w[n..])
    case Stop(s) =>
      assert out[..i] + ([s] + slots[i + 1..]) == out[i := s];
    case Went(s, m) =>
      LaterDrop(w, n, m);
      AfterCons(out[..i], s, n, m, DecFields(fs[i + 1..], slots[i + 1..], w[n + m..]));
      assert out[i := s][..i + 1] == out[..i] + [s];
  }

  lemma UpdateKeepsRest(out: seq<Slot>, slots: seq<Slot>, i: nat, s: Slot)
    requires i < |slots| == |out| && out[i..] == slots[i..]
    ensures out[i := s][i + 1..] == slots[i + 1..]
  {
    assert out[i..][1..] == slots[i..][1..];
  }

  lemma LaterDrop(w: bytes, n: nat, m: nat)
    requires n + m <= |w|
    ensures w[n..][m..] == w[n + m..]
  {
  }

  lemma AfterCons(done: seq<Slot>, s: Slot, n: nat, m: nat, r: Fields)
    ensures After(done + [s], n + m, r)
         == match r
            case FieldsStop(ss) => FieldsStop(done + ([s] + ss))
            case FieldsRead(ss, k) => FieldsRead(done + ([s] + ss), n + (m + k))
  {
    assert done + [s] + r.slots == done + ([s] + r.slots);
  }

  /** The reader of a SET OF or SEQUENCE OF: it empties the list it is given,
      and on failure frees it and leaves NULL. */
  method D2IList(t: Type, a: Slot, buf: array<byte>, pp: nat, length: int, heap: Heap)
    returns (ok: bool, a': Slot, pp': nat)
    requires t.List? && pp <= buf.Length && pp + length <= buf.Length
    requires FitsSlot(t, a)
    modifies buf, heap
    ensures buf[..] == old(buf[..])
    ensures var r := Dec(t, a, Window(old(buf[..]), pp, length));
            && ok == r.Done? && a' == AsStep(r).slot && pp' == pp + if ok then r.n else 0
    ensures heap.live + NodesOfSlot(a) == old(heap.live) + NodesOfSlot(a')
    ensures heap.strayed == (old(heap.strayed) || Strays(t, Window(old(buf[..]), pp, length)))
    decreases t, 2
  {
    hide GetObject, GetHeader, DecItems, Content, Window, NodesOfItems, FitsSlot, Fits;
    ok, a', pp' := false, a, pp;
    ghost var h := GetObject(Window(buf[..], pp, length));
    var tinf, p, len, tag, xclass, behind := ReadHeader(buf, pp, length);
    if tinf >= BAD || tag != t.tag || xclass != t.cls {
      return;
    }
    var indefinite := tinf == CONSTRUCTED + 1;
    if indefinite {
      len := length - (p - pp);
    }
    ContentWindow(buf[..], pp, length, h);
    if a.None? {
      heap.Allocate();
    } else {
      heap.Free(Nodes(a.value) - 1);
    }
    var xs;
    ok, xs, p := D2IItems(t.elem, indefinite, buf, p, len, heap);
    if ok {
      a', pp' := Some(Items(xs)), p;
    } else {
      heap.Free(1);
      a' := None;
    }
  }

  /** The elements of a list in the `length` octets at q; on failure those
      already read are freed. */
  method D2IItems(e: Type, indefinite: bool, buf: array<byte>, q: nat, length: nat, heap: Heap)
    returns (ok: bool, xs: seq<Value>, p: nat)
    requires q + length <= buf.Length
    modifies buf, heap
    ensures buf[..] == old(buf[..])
    ensures var r := DecItems(e, indefinite, Window(old(buf[..]), q, length));
            ok == r.ElementsRead? && (ok ==> xs == r.items && p == q + r.n)
    ensures heap.live == old(heap.live) + if ok then NodesOfItems(xs) else 0
    ensures heap.strayed == (old(heap.strayed) || StraysInItems(e, Window(old(buf[..]), q, length)))
    decreases e, 4
  {
    hide DecItems, Dec, Nodes, NodesOfItems, Window, AtEndOfContents, Fits, Strays, StraysInItems;
    ghost var w := Window(buf[..], q, length);
    var len, expected := length, indefinite;
    ok, xs, p := false, [], q;
    NoNodes();
    assert w[0..] == w;
    while len > 0
      invariant buf[..] == old(buf[..]) && expected == indefinite
      invariant 0 <= len && q <= p && p + len == q + length
      invariant DecItems(e, indefinite, w) == AfterItems(xs, p - q, DecItems(e, indefinite, w[p - q..]))
      invariant heap.live == old(heap.live) + NodesOfItems(xs)
      invariant (heap.strayed || StraysInItems(e, w[p - q..])) == (old(heap.strayed) || StraysInItems(e, w))
      decreases len
    {
      ghost var n := p - q;
      LaterWindow(buf[..], q, length, n);
      NextElement(e, indefinite, xs, w, n);
      NextStrayItem(e, w, n);
      DecFits(e, None, w[n..]);
      var end := CheckEnd(buf, p, len);
      if end {
        ok := expected;
        if ok {
          p := p + 2;
        } else {
          heap.Free(NodesOfItems(xs));
        }
        return;
      }
      var x;
      var at := p;
      ok, x, p := D2I(e, None, buf, p, len, heap);
      if !ok {
        heap.Free(NodesOfItems(xs));
        return;
      }
      len := len - (p - at);
      NodesAppend(xs, x.value);
      xs := xs + [x.value];
    }
    NextElement(e, indefinite, xs, w, length);
    NextStrayItem(e, w, length);
    ok := !expected;
    if !ok {
      heap.Free(NodesOfItems(xs));
    }
  }

  lemma NextStrayItem(e: Type, w: bytes, n: nat)
    requires n <= |w|
    ensures var r := Dec(e, None, w[n..]);
            StraysInItems(e, w[n..])
            == (n < |w| && !AtEndOfContents(w[n..])
                && (Strays(e, w[n..]) || (r.Done? && StraysInItems(e, w[n + r.n..]))))
  {
    hide Dec, Strays, AtEndOfContents;
    var r := Dec(e, None, w[n..]);
    if r.Done? {
      LaterDrop(w, n, r.n);
    }
  }

  ghost function AfterItems(done: seq<Value>, n: nat, r: Elements): Elements {
    match r
    case ElementsStop => ElementsStop
    case ElementsRead(xs, m) => ElementsRead(done + xs, n + m)
  }

  lemma NoNodes()
    ensures NodesOfItems([]) == 0
  {
  }

  lemma NextElement(e: Type, indefinite: bool, done: seq<Value>, w: bytes, n: nat)
    requires n <= |w|
    ensures AfterItems(done, n, DecItems(e, indefinite, w[n..]))
            == if n == |w| then if indefinite then ElementsStop else ElementsRead(done, n)
               else if AtEndOfContents(w[n..]) then if indefinite then ElementsRead(done, n + 2) else ElementsStop
               else var r := Dec(e, None, w[n..]);
                    if r.Done? then AfterItems(done + [r.v], n + r.n, DecItems(e, indefinite, w[n + r.n..]))
                    else ElementsStop
  {
    hide Dec, DecItems, AtEndOfContents;
    assert done + [] == done;
    UnfoldItems(e, indefinite, w[n..]);
    var r := Dec(e, None, w[n..]);
    if r.Done? {
      LaterDrop(w, n, r.n);
      AfterItemsCons(done, r.v, n, r.n, DecItems(e, indefinite, w[n + r.n..]));
    }
  }

  lemma AfterItemsCons(done: seq<Value>, x: Value, n: nat, m: nat, r: Elements)
    ensures AfterItems(done, n, AfterItems([x], m, r)) == AfterItems(done + [x], n + m, r)
  {
    if r.ElementsRead? {
      assert done + [x] + r.items == done + ([x] + r.items);
    }
  }

  lemma UnfoldItems(e: Type, indefinite: bool, w: bytes)
    ensures w == [] ==> DecItems(e, indefinite, w) == if indefinite then ElementsStop else ElementsRead([], 0)
    ensures AtEndOfContents(w) ==>
              DecItems(e, indefinite, w) == if indefinite then ElementsRead([], 2) else ElementsStop
    ensures w != [] && !AtEndOfContents(w) ==>
              var r := Dec(e, None, w);
              DecItems(e, indefinite, w)
              == if r.Done? then AfterItems([r.v], r.n, DecItems(e, indefinite, w[r.n..])) else ElementsStop
  {
    hide Dec;
  }
}
