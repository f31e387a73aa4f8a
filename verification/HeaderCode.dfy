/** The header primitives as code over a buffer, the way
    Pods/BoringSSL/crypto/asn1/asn1_lib.c computes them. */
module HeaderCode {
  import opened Octets
  import opened Header

  /** The number of octets `n` takes, for the tag (7 bits each) and the length
      (8 bits each). */
  method CountTag(tag: Tag) returns (i: nat)
    requires tag > 0
    ensures i == |TagPrefix(tag / 128)| + 1 && i <= 5
  {
    var ttag := tag;
    i := 0;
    TagSize(tag, 5);
    while ttag > 0
      invariant 0 <= ttag && i + |TagPrefix(ttag)| == |TagPrefix(tag)|
    {
      ttag := ttag / 128;
      i := i + 1;
    }
  }

  function Power128(k: nat): nat {
    if k == 0 then 1 else 128 * Power128(k - 1)
  }

  lemma {:induction false} TagSizeUpTo(n: nat, k: nat)
    requires n < Power128(k)
    ensures |TagPrefix(n)| <= k
    decreases k
  {
    if n > 0 {
      TagSizeUpTo(n / 128, k - 1);
    }
  }

  lemma TagSize(n: nat, k: nat)
    requires n <= INT_MAX && k == 5
    ensures |TagPrefix(n)| <= 5
  {
    assert Power128(5) == 128 * Power128(4) && Power128(4) == 128 * Power128(3) && Power128(3) == 128 * Power128(2);
    assert Power128(2) == 128 * Power128(1) && Power128(1) == 128 * Power128(0);
    TagSizeUpTo(n, 5);
  }

  method CountLength(length: nat) returns (i: nat)
    requires length <= INT_MAX
    ensures i == |Base256(length)| && i <= 4
  {
    var l := length;
    i := 0;
    if length > 127 {
      LongLength(length);
    } else {
      assert Base256(length / 256) == [];
    }
    while l > 0
      invariant 0 <= l && i + |Base256(l)| == |Base256(length)|
    {
      l := l / 256;
      i := i + 1;
    }
  }

  /** The octets ASN1_put_object writes: `constructed` is 0, 1, or 2 for an
      indefinite length. A negative length goes into one octet like any other
      that is at most 127. */
  function PutAny(constructed: int, length: int, tag: Tag, cls: Class): (r: bytes)
    ensures r != []
    ensures constructed == 2 ==> r == PutIndefinite(tag, cls)
    ensures constructed != 2 && length >= 0 ==> r == PutObject(constructed != 0, length, tag, cls)
  {
    IdOctets(constructed != 0, tag, cls) + if constructed == 2 then [INDEFINITE] else IntOctets(length)
  }

  /** asn1_put_length of an int; the cast to a char keeps its low octet. */
  function IntOctets(length: int): (r: bytes)
    ensures r != []
  {
    if length < 0 then [length % 256] else LengthOctets(length)
  }

  /** The octets ASN1_put_object and, for an indefinite length, ASN1_put_eoc add
      to contents of this length. */
  function Overhead(constructed: int, length: int, tag: Tag): nat {
    |PutAny(constructed, length, tag, UNIVERSAL)| + if constructed == 2 then |END_OF_CONTENTS| else 0
  }

  /** ASN1_object_size: the contents and what is put around them, or -1 when that
      is INT_MAX or more. */
  method ObjectSize(constructed: int, length: CInt, tag: Tag) returns (ret: CInt)
    ensures ret == if 0 <= length && Overhead(constructed, length, tag) + length < INT_MAX
                   then Overhead(constructed, length, tag) + length else -1
  {
    ret := 1;
    if length < 0 {
      return -1;
    }
    if tag >= 31 {
      var n := CountTag(tag);
      ret := ret + n;
    }
    assert ret == |IdOctets(constructed != 0, tag, UNIVERSAL)|;
    if constructed == 2 {
      ret := ret + 3;
    } else {
      ret := ret + 1;
      if length > 127 {
        var n := CountLength(length);
        ret := ret + n;
      }
    }
    if ret >= INT_MAX - length {
      return -1;
    }
    ret := ret + length;
  }

  /** The loop of ASN1_put_object that writes a tag of 31 or more, last digit
      first, at q. */
  method PutTag(buf: array<byte>, q: nat, tag: Tag) returns (p: nat)
    requires tag > 0 && q + |TagPrefix(tag / 128)| + 1 <= buf.Length
    modifies buf
    ensures p == q + |TagPrefix(tag / 128)| + 1
    ensures buf[..] == Splice(old(buf[..]), q, TagPrefix(tag / 128) + [tag % 128])
  {
    var n := CountTag(tag);
    ghost var digits := TagPrefix(tag / 128) + [tag % 128];
    var i, t := n, tag;
    while i > 0
      invariant 0 <= i <= n == |digits| && 0 <= t <= tag
      invariant if i == n then t == tag else digits[..i] == TagPrefix(t)
      invariant forall k | i <= k < n :: buf[q + k] == digits[k]
      invariant forall k | 0 <= k < buf.Length && !(q + i <= k < q + n) :: buf[k] == old(buf[k])
    {
      i := i - 1;
      if i == n - 1 {
        assert digits[i] == t % 128 && digits[..i] == TagPrefix(t / 128);
        buf[q + i] := t % 128;
      } else {
        assert TagPrefix(t) == TagPrefix(t / 128) + [0x80 + t % 128];
        assert digits[i] == TagPrefix(t)[i] && digits[..i] == TagPrefix(t)[..i];
        buf[q + i] := t % 128 + 0x80;
      }
      t := t / 128;
    }
    p := q + n;
    assert buf[q..p] == digits;
  }

  /** The loop of asn1_put_length, last digit first, at q. */
  method PutDigits(buf: array<byte>, q: nat, length: nat, n: nat)
    requires n == |Base256(length)| && q + n <= buf.Length
    modifies buf
    ensures buf[..] == Splice(old(buf[..]), q, Base256(length))
  {
    ghost var digits := Base256(length);
    var i, l := n, length;
    while i > 0
      invariant 0 <= i <= n == |digits| && 0 <= l
      invariant digits[..i] == Base256(l)
      invariant forall k | i <= k < n :: buf[q + k] == digits[k]
      invariant forall k | 0 <= k < buf.Length && !(q + i <= k < q + n) :: buf[k] == old(buf[k])
    {
      i := i - 1;
      assert Base256(l) == Base256(l / 256) + [l % 256];
      assert digits[i] == Base256(l)[i] && digits[..i] == Base256(l)[..i];
      buf[q + i] := l % 256;
      l := l / 256;
    }
    assert buf[q..q + n] == digits;
  }

  /** asn1_put_length */
  method PutLength(buf: array<byte>, q: nat, length: CInt) returns (p: nat)
    requires q + |IntOctets(length)| <= buf.Length
    modifies buf
    ensures p == q + |IntOctets(length)|
    ensures buf[..] == Splice(old(buf[..]), q, IntOctets(length))
  {
    if length <= 127 {
      buf[q] := length % 256;
      p := q + 1;
    } else {
      p := PutLongLength(buf, q, length);
    }
  }

  method PutLongLength(buf: array<byte>, q: nat, length: nat) returns (p: nat)
    requires 127 < length <= INT_MAX && q + 1 + |Base256(length)| <= buf.Length
    modifies buf
    ensures p == q + 1 + |Base256(length)|
    ensures buf[..] == Splice(old(buf[..]), q, LengthOctets(length))
  {
    hide Base256, Splice;
    var n := CountLength(length);
    ghost var s := buf[..];
    buf[q] := n + 0x80;
    SpliceOne(s, q, n + 0x80);
    PutDigits(buf, q + 1, length, n);
    SpliceTwice(s, q, [n + 0x80], Base256(length));
    p := q + 1 + n;
  }

  lemma SpliceOne(s: bytes, q: nat, b: byte)
    requires q < |s|
    ensures Splice(s, q, [b]) == s[q := b]
  {
  }

  /** ASN1_put_object */
  method PutHeader(buf: array<byte>, q: nat, constructed: int, length: CInt, tag: Tag, cls: Class) returns (p: nat)
    requires q + |PutAny(constructed, length, tag, cls)| <= buf.Length
    modifies buf
    ensures p == q + |PutAny(constructed, length, tag, cls)|
    ensures buf[..] == Splice(old(buf[..]), q, PutAny(constructed, length, tag, cls))
  {
    hide IdOctets, IntOctets, PutObject, PutIndefinite, Splice;
    ghost var s := buf[..];
    p := PutIdentifier(buf, q, constructed != 0, tag, cls);
    if constructed == 2 {
      SpliceOne(buf[..], p, INDEFINITE);
      buf[p] := 0x80;
      p := p + 1;
      SpliceTwice(s, q, IdOctets(true, tag, cls), [INDEFINITE]);
    } else {
      p := PutLength(buf, p, length);
      SpliceTwice(s, q, IdOctets(constructed != 0, tag, cls), IntOctets(length));
    }
  }

  method PutIdentifier(buf: array<byte>, q: nat, constructed: bool, tag: Tag, cls: Class) returns (p: nat)
    requires q + |IdOctets(constructed, tag, cls)| <= buf.Length
    modifies buf
    ensures p == q + |IdOctets(constructed, tag, cls)|
    ensures buf[..] == Splice(old(buf[..]), q, IdOctets(constructed, tag, cls))
  {
    hide TagPrefix, Splice;
    var i := Bit(constructed) + cls;
    if tag < 31 {
      SpliceOne(buf[..], q, i + tag);
      buf[q] := i + tag;
      p := q + 1;
    } else {
      p := PutHighTag(buf, q, i + PRIMITIVE_TAG, tag);
      Assoc([i + PRIMITIVE_TAG], TagPrefix(tag / 128), [tag % 128]);
    }
  }

  /** The identifier of a tag of 31 or more, behind its leading octet. */
  method PutHighTag(buf: array<byte>, q: nat, lead: byte, tag: Tag) returns (p: nat)
    requires tag > 0 && q + |TagPrefix(tag / 128)| + 2 <= buf.Length
    modifies buf
    ensures p == q + |TagPrefix(tag / 128)| + 2
    ensures buf[..] == Splice(old(buf[..]), q, [lead] + (TagPrefix(tag / 128) + [tag % 128]))
  {
    hide TagPrefix, Splice;
    ghost var s := buf[..];
    SpliceOne(s, q, lead);
    buf[q] := lead;
    p := PutTag(buf, q + 1, tag);
    SpliceTwice(s, q, [lead], TagPrefix(tag / 128) + [tag % 128]);
  }

  /** M_ASN1_I2D_INF_seq_start */
  method PutInfiniteStart(buf: array<byte>, q: nat, tag: Tag, ctx: Class) returns (p: nat)
    requires tag < 31 && q + 2 <= buf.Length
    modifies buf
    ensures p == q + |PutIndefinite(tag, ctx)| && buf[..] == Splice(old(buf[..]), q, PutIndefinite(tag, ctx))
  {
    buf[q] := CONSTRUCTED + tag + ctx;
    buf[q + 1] := 0x80;
    p := q + 2;
  }

  /** M_ASN1_I2D_INF_seq_end */
  method PutInfiniteEnd(buf: array<byte>, q: nat) returns (p: nat)
    requires q + 2 <= buf.Length
    modifies buf
    ensures p == q + 2 && buf[..] == Splice(old(buf[..]), q, END_OF_CONTENTS)
  {
    buf[q] := 0;
    buf[q + 1] := 0;
    p := q + 2;
  }

  // ---------------------------------------------------------------- reading

  lemma NextDigit(d: bytes, k: nat)
    requires k < |d|
    ensures FromBase256(d[..k + 1]) == FromBase256(d[..k]) * 256 + d[k]
  {
    assert d[..k + 1][..k] == d[..k];
  }

  /** asn1_get_length on the `max` octets at q. */
  method ReadLength(buf: array<byte>, q: nat, max: int) returns (ok: bool, p: nat, inf: bool, rl: int)
    requires q <= buf.Length && q + max <= buf.Length
    ensures var l := GetLength(Window(buf[..], q, max));
            ok == l.Length? && (ok ==> p == q + l.size && inf == l.indefinite && rl == l.len)
  {
    p, inf, rl := q, false, 0;
    if max < 1 {
      return false, p, inf, rl;
    }
    ghost var w := buf[q..q + max];
    if buf[q] == INDEFINITE {
      return true, q + 1, true, 0;
    }
    if buf[q] < 0x80 {
      return true, q + 1, false, buf[q];
    }
    var i := buf[q] - 0x80;
    if i > 8 || max - 1 < i {
      return false, p, inf, rl;
    }
    ghost var digits := w[1..1 + i];
    var k := 0;
    while k < i
      invariant 0 <= k <= i && rl == FromBase256(digits[..k])
    {
      assert w[1 + k] == buf[q + 1 + k];
      assert digits[k] == w[1 + k];
      NextDigit(digits, k);
      rl := rl * 256 + buf[q + 1 + k];
      k := k + 1;
    }
    assert digits[..i] == digits;
    if rl > LONG_MAX {
      return false, p, inf, rl;
    }
    p := q + 1 + i;
    ok := true;
  }

  /** The result flags of ASN1_get_object. */
  const BAD: byte := 0x80

  /** ASN1_get_object on the `omax` octets at pp. It turns away a window of
      length 0; one of negative length it does not, and looks at octets that
      are not its own before it fails: `behind` of them in this buffer. */
  method ReadHeader(buf: array<byte>, pp: nat, omax: int)
    returns (ret: byte, p: nat, length: int, tag: int, xclass: Class, behind: nat)
    requires pp <= buf.Length && pp + omax <= buf.Length
    ensures var h := GetHeader(Window(buf[..], pp, omax));
            if h.Bad? then ret == BAD && p == pp
            else && ret == Bit(h.constructed) + (if h.indefinite then 1 else 0)
                           + (if h.len > omax - h.size then BAD else 0)
                 && p == pp + h.size && length == h.len && tag == h.tag && xclass == h.cls
    ensures var h := GetObject(Window(buf[..], pp, omax));
            if h.Bad? then ret >= BAD
            else && ret == Bit(h.constructed) + (if h.indefinite then 1 else 0)
                 && p == pp + h.size && length == h.len && tag == h.tag && xclass == h.cls
    ensures if omax > 0 then pp <= p <= pp + omax else p == pp
    ensures behind == if omax < 0 then Behind(buf[pp..]) else 0
  {
    hide GetHeader, GetTag, GetLength, Behind, TagBehind, Window, ConstructedBit, ClassBits;
    p, length, tag, xclass, behind := pp, 0, 0, UNIVERSAL, 0;
    HeaderParts(buf[..], pp, omax);
    BehindParts(buf[..], pp);
    OneBit();
    if omax == 0 || pp == buf.Length {
      return BAD, p, length, tag, xclass, behind;
    }
    var q, max := pp + 1, omax - 1;
    ret := ConstructedBit(buf[pp]);
    xclass := ClassBits(buf[pp]);
    tag := buf[pp] % 32;
    var ok := true;
    if tag == PRIMITIVE_TAG {
      ok, q, tag := ReadTag(buf, q, max);
      max := omax - (q - pp);
    }
    if omax < 0 {
      behind := q - pp;
    }
    if !ok || (xclass == UNIVERSAL && tag > MAX_UNIVERSAL) {
      return BAD, p, length, tag, xclass, behind;
    }
    var q', inf, rl;
    ok, q', inf, rl := ReadLength(buf, q, max);
    if !ok || (inf && ret == 0) {
      return BAD, p, length, tag, xclass, behind;
    }
    p, length := q', rl;
    if length > omax - (p - pp) {
      ret := ret + BAD;
    }
    if inf {
      ret := ret + 1;
    }
  }

  lemma OneBit()
    ensures forall b: byte :: ConstructedBit(b) == Bit(ConstructedBit(b) != 0)
  {
  }

  /** GetHeader, with the octets found by their positions. */
  lemma HeaderParts(s: bytes, pp: nat, omax: int)
    requires pp <= |s| && pp + omax <= |s|
    ensures var h := GetHeader(Window(s, pp, omax));
            if omax <= 0 then h == Bad
            else
              var b := s[pp];
              var t := if b % 32 < 31 then Some((b % 32, 0)) else GetTag(Window(s, pp + 1, omax - 1), 0);
              if t.None? || (ClassBits(b) == UNIVERSAL && t.value.0 > MAX_UNIVERSAL) then h == Bad
              else
                var n := 1 + t.value.1;
                var l := GetLength(Window(s, pp + n, omax - n));
                if l.BadLength? || (l.indefinite && ConstructedBit(b) == 0) then h == Bad
                else h == Head(n + l.size, ConstructedBit(b) != 0, l.indefinite, ClassBits(b), t.value.0, l.len)
  {
    hide GetTag, GetLength, ConstructedBit, ClassBits, Window;
    if omax > 0 {
      var w := Window(s, pp, omax);
      FirstOctet(s, pp, omax);
      LaterOctets(s, pp, omax, 1);
      var t := if w[0] % 32 < 31 then Some((w[0] % 32, 0)) else GetTag(w[1..], 0);
      if t.Some? {
        LaterOctets(s, pp, omax, 1 + t.value.1);
      }
    }
  }

  lemma FirstOctet(s: bytes, p: nat, length: nat)
    requires length > 0 && p + length <= |s|
    ensures Window(s, p, length)[0] == s[p]
  {
  }

  lemma LaterOctets(s: bytes, p: nat, length: nat, n: nat)
    requires n <= length && p + length <= |s|
    ensures Window(s, p, length)[n..] == Window(s, p + n, length - n)
  {
  }

  lemma BehindParts(s: bytes, pp: nat)
    requires pp <= |s|
    ensures Behind(s[pp..]) == if pp == |s| then 0
                               else if s[pp] % 32 < 31 then 1
                               else 1 + TagBehind(s[pp + 1..], 0)
  {
    hide TagBehind;
    if pp < |s| {
      assert s[pp..][1..] == s[pp + 1..];
    }
  }

  /** How many of the octets `m` behind a window of negative length are looked
      at: the counter has passed zero and no longer ends the loop over a high
      tag; the length octets then find no room. */
  function Behind(m: bytes): (n: nat)
    ensures m != [] ==> 0 < n <= |m|
  {
    if m == [] then 0 else if m[0] % 32 < 31 then 1 else 1 + TagBehind(m[1..], 0)
  }

  function TagBehind(m: bytes, l: nat): (n: nat)
    ensures n <= |m|
  {
    if m == [] then 0
    else if m[0] < 0x80 || l * 128 + (m[0] - 0x80) > INT_MAX / 128 then 1
    else 1 + TagBehind(m[1..], l * 128 + (m[0] - 0x80))
  }

  /** There is no bound on how far it looks. */
  lemma {:induction false} NoBound(n: nat)
    ensures var m := [0xbf] + seq(n, _ => 0x80); Behind(m) == |m|
  {
    var digits: bytes := seq(n, _ => 0x80);
    assert ([0xbf] + digits)[1..] == digits;
    AllBehind(n);
  }

  lemma {:induction false} AllBehind(n: nat)
    ensures TagBehind(seq(n, _ => 0x80), 0) == n
  {
    if n > 0 {
      var digits: bytes := seq(n, _ => 0x80);
      assert digits[1..] == seq(n - 1, _ => 0x80);
      AllBehind(n - 1);
    }
  }

  /** The high-tag loop of ASN1_get_object with `max` octets left at q. Only a
      counter that comes down to zero ends it early; one that starts below zero
      does not, and the loop then runs on, here up to the end of the buffer. */
  method ReadTag(buf: array<byte>, q: nat, max: int) returns (ok: bool, p: nat, tag: int)
    requires q <= buf.Length && q + max <= buf.Length
    ensures q <= p && tag >= 0
    ensures max >= 0 ==>
              var t := GetTag(Window(buf[..], q, max), 0);
              && ok == (t.Some? && t.value.1 < max)
              && (ok ==> tag == t.value.0 && p == q + t.value.1)
    ensures if max < 0 then p == q + TagBehind(buf[q..], 0) else p <= q + max
  {
    hide GetTag, TagBehind, Window;
    ghost var w, m := Window(buf[..], q, max), buf[q..];
    p, tag := q, 0;
    var left := max;
    assert w[0..] == w && m[0..] == m;
    if left == 0 || p == buf.Length {
      NoOctetLeft(w, m, 0);
      return false, p, tag;
    }
    while p < buf.Length && buf[p] >= 0x80
      invariant q <= p <= buf.Length && left == max - (p - q) && left != 0 && (max > 0 ==> left > 0)
      invariant 0 <= tag <= INT_MAX / 128
      invariant max > 0 ==> GetTag(w, 0) == TagLater(p - q, GetTag(w[p - q..], tag))
      invariant max < 0 ==> TagBehind(m, 0) == p - q + TagBehind(m[p - q..], tag)
      decreases buf.Length - p
    {
      NextOctet(buf[..], q, max, p - q, tag);
      tag := tag * 128 + (buf[p] - 0x80);
      p := p + 1;
      left := left - 1;
      if left == 0 || tag > INT_MAX / 128 {
        NoOctetLeft(w, m, tag);
        return false, p, tag;
      }
    }
    if p == buf.Length {
      NoOctetLeft(w, m, tag);
      return false, p, tag;
    }
    NextOctet(buf[..], q, max, p - q, tag);
    tag := tag * 128 + buf[p];
    p := p + 1;
    left := left - 1;
    ok := left != 0;
  }

  lemma NoOctetLeft(w: bytes, m: bytes, l: nat)
    ensures GetTag([], l) == None && TagBehind([], l) == 0
    ensures w == [] ==> GetTag(w, l) == None
    ensures m == [] ==> TagBehind(m, l) == 0
  {
  }

  /** One turn of the loop, at octet `n` behind `q`. */
  lemma NextOctet(s: bytes, q: nat, max: int, n: nat, l: nat)
    requires q + n < |s| && q + max <= |s| && (max > 0 ==> n < max)
    ensures var b := s[q + n];
            var w, m := Window(s, q, max), s[q..];
            && (max > 0 ==> GetTag(w[n..], l) == if b < 0x80 then Some((l * 128 + b, 1))
                                                 else if l * 128 + (b - 0x80) > INT_MAX / 128 then None
                                                 else TagLater(1, GetTag(w[n + 1..], l * 128 + (b - 0x80))))
            && TagBehind(m[n..], l) == if b < 0x80 || l * 128 + (b - 0x80) > INT_MAX / 128 then 1
                                       else 1 + TagBehind(m[n + 1..], l * 128 + (b - 0x80))
  {
    var w, m := Window(s, q, max), s[q..];
    assert m[n] == s[q + n];
    assert m[n..][0] == m[n] && m[n..][1..] == m[n + 1..];
    if max > 0 {
      assert w[n] == s[q + n];
      assert w[n..][0] == w[n] && w[n..][1..] == w[n + 1..];
    }
  }
}
