/** Identifier and length octets (sections 8.1.2, 8.1.3 and 8.1.5 of X.690):
    what ASN1_put_object writes, what ASN1_get_object reads back, and the size
    ASN1_object_size announces. */
module Header {
  import opened Octets

  // ---------------------------------------------------------------- writing

  /** All but the last octet of a high tag: base 128, continuation bit set. */
  function TagPrefix(n: nat): bytes
    decreases n
  {
    if n == 0 then [] else TagPrefix(n / 128) + [0x80 + n % 128]
  }

  function IdOctets(constructed: bool, tag: nat, cls: Class): (r: bytes)
    ensures r != [] && r[0] == cls + Bit(constructed) + (if tag < 31 then tag else 31)
  {
    if tag < 31 then [cls + Bit(constructed) + tag]
    else [cls + Bit(constructed) + PRIMITIVE_TAG] + TagPrefix(tag / 128) + [tag % 128]
  }

  function Base256(n: nat): bytes
    decreases n
  {
    if n == 0 then [] else Base256(n / 256) + [n % 256]
  }

  /** A C `int` needs at most four length octets; the remainder only keeps the
      expression an octet for larger numbers. */
  function LengthOctets(len: nat): (r: bytes)
    ensures r != []
  {
    if len <= 127 then [len] else [(0x80 + |Base256(len)|) % 256] + Base256(len)
  }

  /** The size of a definite header. */
  function HeaderSize(len: nat, tag: nat): nat {
    (if tag < 31 then 1 else |TagPrefix(tag / 128)| + 2) + |LengthOctets(len)|
  }

  /** The octets ASN1_put_object writes for a definite length. */
  function PutObject(constructed: bool, len: nat, tag: nat, cls: Class): (r: bytes)
    ensures |r| == HeaderSize(len, tag) >= 2
    ensures r[0] == cls + Bit(constructed) + (if tag < 31 then tag else 31)
  {
    IdOctets(constructed, tag, cls) + LengthOctets(len)
  }

  /** The octets that open an indefinite-length constructed encoding. */
  function PutIndefinite(tag: nat, cls: Class): (r: bytes)
    ensures |r| >= 2 && r[0] == cls + CONSTRUCTED + (if tag < 31 then tag else 31)
  {
    IdOctets(true, tag, cls) + [INDEFINITE]
  }

  const END_OF_CONTENTS: bytes := [0, 0]

  // ---------------------------------------------------------------- reading

  datatype Head =
    | Bad
    | Head(size: nat, constructed: bool, indefinite: bool, cls: Class, tag: nat, len: nat)

  /** The rest of a high tag; `l` holds the digits already read. */
  function GetTag(w: bytes, l: nat): (r: Option<(nat, nat)>)
    ensures r.Some? ==> 0 < r.value.1 <= |w|
  {
    if w == [] then None
    else if w[0] < 0x80 then Some((l * 128 + w[0], 1))
    else if l * 128 + (w[0] - 0x80) > INT_MAX / 128 then None
    else match GetTag(w[1..], l * 128 + (w[0] - 0x80))
      case None => None
      case Some(t) => Some((t.0, t.1 + 1))
  }

  function FromBase256(d: bytes): nat {
    if d == [] then 0 else FromBase256(d[..|d| - 1]) * 256 + d[|d| - 1]
  }

  datatype Length = BadLength | Length(size: nat, indefinite: bool, len: nat)

  function GetLength(w: bytes): (r: Length)
    ensures r.Length? ==> 0 < r.size <= |w|
  {
    if w == [] then BadLength
    else if w[0] == INDEFINITE then Length(1, true, 0)
    else if w[0] < 0x80 then Length(1, false, w[0])
    else
      var i := w[0] - 0x80;
      if i > 8 || |w| - 1 < i || FromBase256(w[1..1 + i]) > LONG_MAX then BadLength
      else Length(1 + i, false, FromBase256(w[1..1 + i]))
  }

  /** The header `w` begins with, whether or not its contents are in the window. */
  function GetHeader(w: bytes): (h: Head)
    ensures h.Head? ==> 1 < h.size <= |w|
    ensures h.Head? && h.indefinite ==> h.constructed && h.len == 0
  {
    if w == [] then Bad
    else
      var t := if w[0] % 32 < 31 then Some((w[0] % 32, 0)) else GetTag(w[1..], 0);
      if t.None? || (ClassBits(w[0]) == UNIVERSAL && t.value.0 > MAX_UNIVERSAL) then Bad
      else
        var n := 1 + t.value.1;
        var l := GetLength(w[n..]);
        var constructed := ConstructedBit(w[0]) != 0;
        if l.BadLength? || (l.indefinite && !constructed) then Bad
        else Head(n + l.size, constructed, l.indefinite, ClassBits(w[0]), t.value.0, l.len)
  }

  /** ASN1_get_object on the window `w`; `Bad` stands for the 0x80 flag. */
  function GetObject(w: bytes): (h: Head)
    ensures h.Head? ==> 1 < h.size && h.size + h.len <= |w|
    ensures h.Head? && h.indefinite ==> h.constructed && h.len == 0
  {
    var h := GetHeader(w);
    if h.Bad? || h.len > |w| - h.size then Bad else h
  }

  /** ASN1_const_check_infinite_end: two zero octets, both inside the window. */
  predicate AtEndOfContents(w: bytes) {
    |w| >= 2 && w[0] == 0 && w[1] == 0
  }

  // ------------------------------------------------------------------ extent

  /** The number of octets of the encoding that `w` begins with, whatever its
      type: the announced contents, or everything through the end-of-contents
      that closes it (section 8.1.1 of X.690). */
  function Extent(w: bytes): (n: Option<nat>)
    ensures n.Some? ==> 1 < n.value <= |w|
    decreases |w|, 0
  {
    var h := GetObject(w);
    if h.Bad? then None
    else if !h.indefinite then Some(h.size + h.len)
    else match ContentsExtent(w[h.size..])
      case None => None
      case Some(n) => Some(h.size + n)
  }

  /** The same for a run of encodings through an end-of-contents. */
  function ContentsExtent(w: bytes): (n: Option<nat>)
    ensures n.Some? ==> n.value <= |w|
    decreases |w|, 1
  {
    if AtEndOfContents(w) then Some(2)
    else match Extent(w)
      case None => None
      case Some(n) => Later(n, ContentsExtent(w[n..]))
  }

  /** The end that is found `n` octets later. */
  function Later(n: nat, end: Option<nat>): Option<nat> {
    if end.Some? then Some(n + end.value) else None
  }

  lemma ContentsNext(w: bytes)
    ensures ContentsExtent(w) == if AtEndOfContents(w) then Some(2)
                                 else if Extent(w).None? then None
                                 else Later(Extent(w).value, ContentsExtent(w[Extent(w).value..]))
  {
    hide Extent;
  }

  // ------------------------------------------------------- what is accepted

  lemma {:induction false} TagBound(w: bytes, l: nat)
    requires l <= INT_MAX / 128
    ensures GetTag(w, l).Some? ==> GetTag(w, l).value.0 <= 0x7fff_ffff
  {
    if w != [] && w[0] >= 0x80 && l * 128 + (w[0] - 0x80) <= INT_MAX / 128 {
      TagBound(w[1..], l * 128 + (w[0] - 0x80));
    }
  }

  /** What an accepted header says fits the C types it is handed on in, and its
      contents are in the window. */
  lemma HeaderBounds(w: bytes)
    ensures var h := GetObject(w);
            h.Head? ==>
              && h.tag <= 0x7fff_ffff && (h.cls == 0 ==> h.tag <= 255)
              && h.len <= 0x7fff_ffff_ffff_ffff && h.size + h.len <= |w|
  {
    hide GetTag;
    if w != [] {
      TagBound(w[1..], 0);
    }
  }

  // ------------------------------------------------------------- round trip

  lemma {:induction false} Base256RoundTrip(n: nat)
    ensures FromBase256(Base256(n)) == n
    decreases n
  {
    if n > 0 {
      Base256RoundTrip(n / 256);
      assert Base256(n)[..|Base256(n)| - 1] == Base256(n / 256);
    }
  }

  lemma {:induction false} Base256Size(n: nat, k: nat, bound: nat)
    requires n < bound && bound == Power256(k)
    ensures |Base256(n)| <= k
    decreases k
  {
    if n > 0 {
      assert k > 0;
      Base256Size(n / 256, k - 1, Power256(k - 1));
    }
  }

  function Power256(k: nat): nat {
    if k == 0 then 1 else 256 * Power256(k - 1)
  }

  /** The shortest length octets of any number a C `long` holds are read back
      exactly; ASN1_put_object writes those of an `int`. */
  lemma LengthRoundTrip(len: nat, rest: bytes)
    requires len <= LONG_MAX
    ensures GetLength(LengthOctets(len) + rest) == Length(|LengthOctets(len)|, false, len)
  {
    hide Base256, FromBase256;
    if len > 127 {
      WideLength(len);
      LongLengthIsRead(|Base256(len)|, Base256(len), LengthOctets(len), rest);
    }
  }

  lemma LongLength(len: nat)
    requires 127 < len <= INT_MAX
    ensures 0 < |Base256(len)| <= 4
  {
    PowersOf256();
    Base256Size(len, 4, Power256(4));
  }

  lemma WideLength(len: nat)
    requires 127 < len <= LONG_MAX
    ensures 0 < |Base256(len)| <= 8 && FromBase256(Base256(len)) == len
  {
    LongSize(len);
    Base256RoundTrip(len);
  }

  lemma LongSize(len: nat)
    requires len <= LONG_MAX
    ensures |Base256(len)| <= 8
  {
    PowersOf256();
    Base256Size(len, 8, Power256(8));
  }

  lemma PowersOf256()
    ensures Power256(4) == INT_MAX * 2 + 2 && Power256(8) == LONG_MAX * 2 + 2
  {
    assert Power256(8) == 256 * Power256(7) && Power256(7) == 256 * Power256(6);
    assert Power256(6) == 256 * Power256(5) && Power256(5) == 256 * Power256(4);
    assert Power256(4) == 256 * Power256(3) && Power256(3) == 256 * Power256(2);
    assert Power256(2) == 256 * Power256(1) && Power256(1) == 256 * Power256(0);
  }

  /** Reading through the prefix of a high tag leaves its leading digits in `l`. */
  lemma {:induction false} TagPrefixRoundTrip(n: nat, rest: bytes)
    requires n <= INT_MAX / 128
    ensures var t, u := GetTag(TagPrefix(n) + rest, 0), GetTag(rest, n);
            t == match u case None => None case Some(r) => Some((r.0, r.1 + |TagPrefix(n)|))
    decreases n
  {
    if n == 0 {
      assert TagPrefix(n) + rest == rest;
    } else {
      var next := [0x80 + n % 128] + rest;
      TagPrefixRoundTrip(n / 128, next);
      assert TagPrefix(n) + rest == TagPrefix(n / 128) + next;
      assert next[1..] == rest;
    }
  }

  lemma TagRoundTrip(tag: nat, rest: bytes)
    requires tag <= INT_MAX
    ensures GetTag(TagPrefix(tag / 128) + [tag % 128] + rest, 0) == Some((tag, |TagPrefix(tag / 128)| + 1))
  {
    var last := [tag % 128] + rest;
    TagPrefixRoundTrip(tag / 128, last);
    assert TagPrefix(tag / 128) + [tag % 128] + rest == TagPrefix(tag / 128) + last;
  }

  /** The part of GetObject up to the length octets. */
  lemma IdentifierRoundTrip(constructed: bool, tag: nat, cls: Class, rest: bytes)
    requires tag <= INT_MAX
    ensures var w, n := IdOctets(constructed, tag, cls) + rest, |IdOctets(constructed, tag, cls)|;
            && ClassBits(w[0]) == cls && (ConstructedBit(w[0]) != 0) == constructed
            && w[n..] == rest
            && (if w[0] % 32 < 31 then Some((w[0] % 32, 0)) else GetTag(w[1..], 0)) == Some((tag, n - 1))
  {
    hide GetTag, TagPrefix;
    var id := IdOctets(constructed, tag, cls);
    var w := id + rest;
    assert w[|id|..] == rest;
    IdentifierOctet(constructed, id[0] % 32, cls);
    if tag >= 31 {
      assert w[1..] == TagPrefix(tag / 128) + [tag % 128] + rest;
      TagRoundTrip(tag, rest);
    }
  }

  /** Class, constructed bit and low tag bits of one octet do not overlap. */
  lemma IdentifierOctet(constructed: bool, low: nat, cls: Class)
    requires low < 32
    ensures var b: byte := cls + Bit(constructed) + low;
            ClassBits(b) == cls && ConstructedBit(b) == Bit(constructed) && b % 32 == low
  {
  }

  /** A header that was written is read back, for every tag, class and content
      length a C `int` can hold, exactly when its tag is not a universal tag
      above 255: ASN1_put_object writes those, ASN1_get_object rejects them. */
  lemma HeaderRoundTrip(constructed: bool, len: nat, tag: nat, cls: Class, rest: bytes)
    requires tag <= INT_MAX && len <= INT_MAX && len <= |rest|
    ensures var h := PutObject(constructed, len, tag, cls);
            GetObject(h + rest) == Head(|h|, constructed, false, cls, tag, len)
            <==> !(cls == 0 && tag > 255)
  {
    hide GetLength, GetTag, IdOctets, LengthOctets;
    var tail := LengthOctets(len) + rest;
    IdentifierRoundTrip(constructed, tag, cls, tail);
    LengthRoundTrip(len, rest);
    assert PutObject(constructed, len, tag, cls) + rest == IdOctets(constructed, tag, cls) + tail;
  }

  /** The same for a header that announces an indefinite length. */
  lemma IndefiniteRoundTrip(tag: nat, cls: Class, rest: bytes)
    requires tag <= INT_MAX
    ensures var h := PutIndefinite(tag, cls);
            GetObject(h + rest) == Head(|h|, true, true, cls, tag, 0)
            <==> !(cls == 0 && tag > 255)
  {
    hide GetTag, IdOctets;
    var tail := [INDEFINITE] + rest;
    IdentifierRoundTrip(true, tag, cls, tail);
    assert PutIndefinite(tag, cls) + rest == IdOctets(true, tag, cls) + tail;
  }

  // ------------------------------------------------------ other length forms

  /** The most octets a length may take behind the first one, for the rules and
      for asn1_get_length, which has room for a `long`. */
  const MOST: nat := 126
  const ROOM: nat := 8

  type OctetCount = x: int | 1 <= x <= MOST witness 1

  /** The length forms of section 8.1.3 of X.690: the shortest, a given number of
      octets, or indefinite. A number of octets that is too small for the
      length stands for the shortest. */
  datatype LengthForm = Shortest | Long(octets: OctetCount) | Indefinite

  predicate Within(form: LengthForm, most: nat) {
    form.Long? ==> form.octets <= most
  }

  function Padded(octets: nat, len: nat): (d: bytes)
    requires |Base256(len)| <= octets
    ensures |d| == octets
  {
    seq(octets - |Base256(len)|, _ => 0) + Base256(len)
  }

  function LengthIn(form: LengthForm, len: nat): (r: bytes)
    ensures r != []
  {
    if form.Long? && |Base256(len)| <= form.octets
    then [0x80 + form.octets] + Padded(form.octets, len)
    else LengthOctets(len)
  }

  /** A constructed header whose length is written in a given form. */
  function HeaderIn(form: LengthForm, len: nat, tag: nat, cls: Class): (r: bytes)
    ensures r != [] && r[0] == cls + CONSTRUCTED + (if tag < 31 then tag else 31)
    ensures form.Shortest? ==> r == PutObject(true, len, tag, cls)
  {
    if form.Indefinite? then PutIndefinite(tag, cls) else IdOctets(true, tag, cls) + LengthIn(form, len)
  }

  lemma {:induction false} LeadingZeros(k: nat, d: bytes)
    ensures FromBase256(seq(k, _ => 0) + d) == FromBase256(d)
    decreases k + |d|
  {
    var zeros: bytes := seq(k, _ => 0);
    if d != [] {
      LeadingZeros(k, d[..|d| - 1]);
      assert (zeros + d)[..k + |d| - 1] == zeros + d[..|d| - 1];
    } else if k > 0 {
      LeadingZeros(k - 1, d);
      assert (zeros + d)[..k - 1] == seq(k - 1, _ => 0) + d;
    }
  }

  lemma LengthInRoundTrip(form: LengthForm, len: nat, rest: bytes)
    requires len <= LONG_MAX
    ensures GetLength(LengthIn(form, len) + rest)
         == if Within(form, ROOM) then Length(|LengthIn(form, len)|, false, len) else BadLength
  {
    hide Base256, FromBase256, Padded, LengthOctets;
    LongSize(len);
    if form.Long? && form.octets > ROOM {
      assert (LengthIn(form, len) + rest)[0] == 0x80 + form.octets;
    } else if form.Long? && |Base256(len)| <= form.octets {
      PaddedRoundTrip(form.octets, len);
      LongLengthIsRead(form.octets, Padded(form.octets, len), LengthIn(form, len), rest);
    } else {
      LengthRoundTrip(len, rest);
    }
  }

  lemma PaddedRoundTrip(octets: nat, len: nat)
    requires |Base256(len)| <= octets
    ensures FromBase256(Padded(octets, len)) == len
  {
    hide Base256, FromBase256;
    Base256RoundTrip(len);
    LeadingZeros(octets - |Base256(len)|, Base256(len));
  }

  lemma LongLengthIsRead(n: nat, d: bytes, e: bytes, rest: bytes)
    requires 0 < n <= 8 && |d| == n && e == [0x80 + n] + d && FromBase256(d) <= LONG_MAX
    ensures GetLength(e + rest) == Length(1 + n, false, FromBase256(d))
  {
    hide FromBase256;
    assert (e + rest)[1..1 + n] == d;
  }

  /** A constructed header is read back exactly when its length takes no more
      octets than the reader has room for; otherwise there is no header to it. */
  lemma HeaderInRoundTrip(form: LengthForm, len: nat, tag: Tag, cls: Class, rest: bytes)
    requires (cls == UNIVERSAL ==> tag <= MAX_UNIVERSAL) && len <= LONG_MAX && len <= |rest|
    ensures var h := HeaderIn(form, len, tag, cls);
            GetObject(h + rest)
            == if Within(form, ROOM)
               then Head(|h|, true, form.Indefinite?, cls, tag, if form.Indefinite? then 0 else len)
               else Bad
  {
    hide GetLength, GetTag, IdOctets, LengthIn;
    if form.Indefinite? {
      IndefiniteRoundTrip(tag, cls, rest);
    } else {
      var tail := LengthIn(form, len) + rest;
      IdentifierRoundTrip(true, tag, cls, tail);
      LengthInRoundTrip(form, len, rest);
      Assoc(IdOctets(true, tag, cls), LengthIn(form, len), rest);
    }
  }

  /** The reader passes over leading zero digits of a high tag, any number of
      them, which section 8.1.2.4 of X.690 forbids. */
  lemma {:induction false} LeadingDigits(k: nat, w: bytes)
    ensures var t, u := GetTag(seq(k, _ => 0x80) + w, 0), GetTag(w, 0);
            t == TagLater(k, u)
  {
    hide GetTag;
    var digits: bytes := seq(k, _ => 0x80);
    if k == 0 {
      assert digits + w == w;
    } else {
      LeadingDigits(k - 1, w);
      LeadingDigit(seq(k - 1, _ => 0x80) + w);
      assert digits + w == [0x80] + (seq(k - 1, _ => 0x80) + w);
    }
  }

  lemma LeadingDigit(w: bytes)
    ensures GetTag([0x80] + w, 0) == TagLater(1, GetTag(w, 0))
  {
    assert ([0x80] + w)[1..] == w;
  }

  /** The tag that is found `n` octets later. */
  function TagLater(n: nat, t: Option<(nat, nat)>): Option<(nat, nat)> {
    if t.Some? then Some((t.value.0, n + t.value.1)) else None
  }

  // --------------------------------------------------- the shortest header

  lemma {:induction false} ShortestDigits(d: bytes)
    ensures |Base256(FromBase256(d))| <= |d|
    ensures |Base256(FromBase256(d))| == |d| ==> Base256(FromBase256(d)) == d
  {
    hide Base256;
    if d != [] {
      var low, x := d[..|d| - 1], d[|d| - 1];
      ShortestDigits(low);
      NextBase256(FromBase256(low), x);
      assert d == low + [x];
    } else {
      NextBase256(0, 0);
    }
  }

  lemma NextBase256(n: nat, x: byte)
    ensures Base256(n * 256 + x) == if n * 256 + x == 0 then [] else Base256(n) + [x]
  {
    assert n * 256 + x > 0 ==> (n * 256 + x) / 256 == n;
  }

  /** The length octets that are written are the shortest that are read as that
      length, and the only ones of their size. */
  lemma ShortestLength(w: bytes)
    requires GetLength(w).Length? && !GetLength(w).indefinite
    ensures var l := GetLength(w);
            && |LengthOctets(l.len)| <= l.size
            && (|LengthOctets(l.len)| == l.size ==> LengthOctets(l.len) == w[..l.size])
  {
    hide Base256, FromBase256;
    if w[0] >= 0x80 {
      var i := w[0] - 0x80;
      ShortestDigits(w[1..1 + i]);
      FirstOf(w, i);
      assert w[1..][..i] == w[1..1 + i];
    } else {
      assert w[..1] == [w[0]];
    }
  }

  /** The same for the octets of a high tag; `p` are the ones read so far. */
  lemma {:induction false} ShortestTag(p: bytes, l: nat, w: bytes)
    requires |TagPrefix(l)| <= |p| && (|TagPrefix(l)| == |p| ==> TagPrefix(l) == p)
    requires GetTag(w, l).Some?
    ensures var t := GetTag(w, l).value;
            var e := TagPrefix(t.0 / 128) + [t.0 % 128];
            |e| <= |p| + t.1 && (|e| == |p| + t.1 ==> e == p + w[..t.1])
    decreases |w|
  {
    hide TagPrefix;
    if w[0] < 0x80 {
      assert w[..1] == [w[0]];
      assert (l * 128 + w[0]) / 128 == l;
    } else {
      var l' := l * 128 + (w[0] - 0x80);
      PrefixGrows(l, w[0] - 0x80);
      ShortestTag(p + [w[0]], l', w[1..]);
      var n := GetTag(w[1..], l').value.1;
      FirstOf(w, n);
      Assoc(p, [w[0]], w[1..][..n]);
    }
  }

  lemma PrefixGrows(l: nat, x: nat)
    requires x < 128
    ensures var q := TagPrefix(l * 128 + x); q == [] || q == TagPrefix(l) + [0x80 + x]
  {
  }

  lemma FirstOf(w: bytes, n: nat)
    requires n < |w|
    ensures w[..n + 1] == [w[0]] + w[1..][..n]
  {
  }

  /** ASN1_put_object writes the shortest header that ASN1_get_object reads as
      this tag, class and length, and no other header of that size is read so. */
  lemma ShortestHeader(w: bytes)
    requires GetObject(w).Head? && !GetObject(w).indefinite
    ensures var h := GetObject(w);
            var e := PutObject(h.constructed, h.len, h.tag, h.cls);
            |e| <= h.size && (|e| == h.size ==> e == w[..h.size])
  {
    hide GetTag, GetLength, IdOctets, LengthOctets, ClassBits, ConstructedBit;
    var n := if w[0] % 32 == 31 then 1 + GetTag(w[1..], 0).value.1 else 1;
    ShortestIdentifier(w);
    ShortestLength(w[n..]);
    Split(w, n, GetObject(w).size);
  }

  lemma Split(w: bytes, n: nat, m: nat)
    requires n <= m <= |w|
    ensures w[..m] == w[..n] + w[n..][..m - n]
  {
  }

  lemma ShortestIdentifier(w: bytes)
    requires w != [] && (w[0] % 32 == 31 ==> GetTag(w[1..], 0).Some?)
    ensures var high := w[0] % 32 == 31;
            var tag := if high then GetTag(w[1..], 0).value.0 else w[0] % 32;
            var n := if high then 1 + GetTag(w[1..], 0).value.1 else 1;
            var e := IdOctets(ConstructedBit(w[0]) != 0, tag, ClassBits(w[0]));
            |e| <= n && (|e| == n ==> e == w[..n])
  {
    hide ClassBits, ConstructedBit, TagPrefix, GetTag;
    OctetParts(w[0]);
    if w[0] % 32 == 31 {
      ShortestHighTag(w[1..]);
      var t := GetTag(w[1..], 0).value;
      FirstOf(w, t.1);
      Assoc([w[0]], TagPrefix(t.0 / 128), [t.0 % 128]);
    } else {
      assert w[..1] == [w[0]];
    }
  }

  lemma ShortestHighTag(w: bytes)
    requires GetTag(w, 0).Some?
    ensures var t := GetTag(w, 0).value;
            var e := TagPrefix(t.0 / 128) + [t.0 % 128];
            |e| <= t.1 && (|e| == t.1 ==> e == w[..t.1])
  {
    ShortestTag([], 0, w);
  }

  lemma OctetParts(b: byte)
    ensures ClassBits(b) + Bit(ConstructedBit(b) != 0) + b % 32 == b
  {
  }

  // ------------------------------------------ headers the grammar describes

  /** Does `w` begin with the identifier octets of a constructed encoding with
      this tag and class, in the form section 8.1.2 of X.690 asks for? */
  predicate HasIdentifier(w: bytes, tag: Tag, cls: Class) {
    IdOctets(true, tag, cls) <= w
  }

  lemma {:induction false} PaddedDigits(d: bytes)
    ensures |Base256(FromBase256(d))| <= |d| && Padded(|d|, FromBase256(d)) == d
  {
    ShortestDigits(d);
    if d != [] {
      var low, x := d[..|d| - 1], d[|d| - 1];
      PaddedDigits(low);
      PaddedMore(|low|, FromBase256(low), x);
      assert d == low + [x];
    }
  }

  lemma PaddedMore(k: nat, n: nat, x: byte)
    requires |Base256(n)| <= k && |Base256(n * 256 + x)| <= k + 1
    ensures Padded(k + 1, n * 256 + x) == Padded(k, n) + [x]
  {
    hide Base256;
    NextBase256(n, x);
    NextBase256(0, 0);
  }

  /** Length octets that are read are in one of the forms. */
  lemma LengthHasForm(w: bytes)
    requires GetLength(w).Length? && !GetLength(w).indefinite
    ensures var l := GetLength(w);
            && l.len <= LONG_MAX
            && exists form: LengthForm ::
                 !form.Indefinite? && Within(form, ROOM) && LengthIn(form, l.len) == w[..l.size]
  {
    hide Base256, FromBase256, Padded;
    var l := GetLength(w);
    if w[0] < 0x80 {
      assert Within(Shortest, ROOM) && LengthIn(Shortest, l.len) == w[..1];
    } else {
      var i := w[0] - 0x80;
      PaddedDigits(w[1..1 + i]);
      FirstOf(w, i);
      assert w[1..][..i] == w[1..1 + i];
      assert Within(Long(i), ROOM) && LengthIn(Long(i), l.len) == w[..1 + i];
    }
  }

  /** A header with proper identifier octets that is read is one of those that
      HeaderIn gives. */
  lemma HeaderHasForm(w: bytes, tag: Tag, cls: Class)
    requires GetObject(w).Head? && HasIdentifier(w, tag, cls)
    ensures var h := GetObject(w);
            && h == Head(h.size, true, h.indefinite, cls, tag, h.len) && h.len <= LONG_MAX
            && exists form: LengthForm ::
                 && form.Indefinite? == h.indefinite && Within(form, ROOM)
                 && HeaderIn(form, h.len, tag, cls) == w[..h.size]
  {
    hide GetTag, GetLength, IdOctets, LengthIn;
    var id := IdOctets(true, tag, cls);
    var h, rest := GetObject(w), w[|id|..];
    assert w == id + rest;
    IdentifierRoundTrip(true, tag, cls, rest);
    Split(w, |id|, h.size);
    if h.indefinite {
      IndefiniteOctet(rest);
      assert Within(Indefinite, ROOM) && HeaderIn(Indefinite, h.len, tag, cls) == w[..h.size];
    } else {
      LengthHasForm(rest);
      var form: LengthForm :|
        !form.Indefinite? && Within(form, ROOM) && LengthIn(form, h.len) == rest[..GetLength(rest).size];
      assert HeaderIn(form, h.len, tag, cls) == w[..h.size];
    }
  }

  lemma IndefiniteOctet(w: bytes)
    requires GetLength(w).Length? && GetLength(w).indefinite
    ensures GetLength(w).size == 1 && w[..1] == [INDEFINITE]
  {
  }

  // --------------------------------------------------- more octets, or fewer

  lemma {:induction false} TagOfPrefix(w: bytes, m: nat, l: nat)
    requires m <= |w| && GetTag(w[..m], l).Some?
    ensures GetTag(w, l) == GetTag(w[..m], l)
    decreases m
  {
    if w[0] >= 0x80 {
      assert w[..m][1..] == w[1..][..m - 1];
      TagOfPrefix(w[1..], m - 1, l * 128 + (w[0] - 0x80));
    }
  }

  lemma LengthOfPrefix(w: bytes, m: nat)
    requires m <= |w| && GetLength(w[..m]).Length?
    ensures GetLength(w) == GetLength(w[..m])
  {
    hide FromBase256;
    if w[0] > 0x80 {
      var i := w[0] - 0x80;
      assert w[..m][1..1 + i] == w[1..1 + i];
    }
  }

  /** A header does not change when more octets come into sight. */
  lemma HeadOfPrefix(w: bytes, m: nat)
    requires m <= |w| && GetObject(w[..m]).Head?
    ensures GetObject(w) == GetObject(w[..m])
  {
    hide GetTag, GetLength, ClassBits, ConstructedBit;
    var high := w[0] % 32 == 31;
    assert w[..m][1..] == w[1..][..m - 1];
    if high {
      TagOfPrefix(w[1..], m - 1, 0);
    }
    var n := if high then 1 + GetTag(w[1..], 0).value.1 else 1;
    assert w[..m][n..] == w[n..][..m - n];
    LengthOfPrefix(w[n..], m - n);
  }

  lemma {:induction false} TagAlone(w: bytes, m: nat, l: nat)
    requires m <= |w| && GetTag(w, l).Some? && GetTag(w, l).value.1 <= m
    ensures GetTag(w[..m], l) == GetTag(w, l)
    decreases m
  {
    if w[0] >= 0x80 {
      assert w[..m][1..] == w[1..][..m - 1];
      TagAlone(w[1..], m - 1, l * 128 + (w[0] - 0x80));
    }
  }

  lemma LengthAlone(w: bytes, m: nat)
    requires m <= |w| && GetLength(w).Length? && GetLength(w).size <= m
    ensures GetLength(w[..m]) == GetLength(w)
  {
    hide FromBase256;
    if w[0] > 0x80 {
      var i := w[0] - 0x80;
      assert w[..m][1..1 + i] == w[1..1 + i];
    }
  }

  /** Nor when octets behind the contents are taken away. */
  lemma HeadAlone(w: bytes, m: nat)
    requires GetObject(w).Head? && GetObject(w).size + GetObject(w).len <= m <= |w|
    ensures GetObject(w[..m]) == GetObject(w)
  {
    hide GetTag, GetLength, ClassBits, ConstructedBit;
    var high := w[0] % 32 == 31;
    assert w[..m][1..] == w[1..][..m - 1];
    if high {
      TagAlone(w[1..], m - 1, 0);
    }
    var n := if high then 1 + GetTag(w[1..], 0).value.1 else 1;
    assert w[..m][n..] == w[n..][..m - n];
    LengthAlone(w[n..], m - n);
  }

  /** So an encoding ends where it ends, whatever follows. */
  lemma {:induction false} ExtentOfPrefix(w: bytes, m: nat)
    requires m <= |w| && Extent(w[..m]).Some?
    ensures Extent(w) == Extent(w[..m])
    decreases m, 0
  {
    hide GetObject;
    HeadOfPrefix(w, m);
    var h := GetObject(w);
    if h.indefinite {
      assert w[..m][h.size..] == w[h.size..][..m - h.size];
      ContentsOfPrefix(w[h.size..], m - h.size);
    }
  }

  lemma {:induction false} ContentsOfPrefix(w: bytes, m: nat)
    requires m <= |w| && ContentsExtent(w[..m]).Some?
    ensures ContentsExtent(w) == ContentsExtent(w[..m])
    decreases m, 1
  {
    hide Extent, ContentsExtent;
    ContentsNext(w);
    ContentsNext(w[..m]);
    if !AtEndOfContents(w[..m]) {
      ExtentOfPrefix(w, m);
      var n := Extent(w).value;
      assert w[..m][n..] == w[n..][..m - n];
      ContentsOfPrefix(w[n..], m - n);
    }
  }
}
